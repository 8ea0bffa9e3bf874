/** Sequence operations standing for the list and dictionary idioms of the
    scripts: list comprehensions with a condition, dictionaries built from a
    row scan (first insertion fixes the key order, the last write wins). */
module Seqs {

  /** No element occurs twice. */
  predicate Distinct<T(==)>(s: seq<T>) {
    forall i, j :: 0 <= i < j < |s| ==> s[i] != s[j]
  }

  /** The elements of `s` that satisfy `p`, in their order in `s`
      (`[x for x in s if p(x)]`). */
  function Filter<T(!new)>(s: seq<T>, p: T -> bool): (r: seq<T>)
    ensures |r| <= |s|
    ensures forall x :: x in r <==> x in s && p(x)
  {
    if s == [] then []
    else (if p(s[0]) then [s[0]] else []) + Filter(s[1..], p)
  }

  lemma AppendAssoc<T>(a: seq<T>, b: seq<T>, c: seq<T>)
    ensures a + (b + c) == (a + b) + c
  {
  }

  /** Filtering commutes with concatenation: what survives of an earlier
      part comes before what survives of a later part. */
  lemma {:induction false} FilterAppend<T(!new)>(a: seq<T>, b: seq<T>, p: T -> bool)
    ensures Filter(a + b, p) == Filter(a, p) + Filter(b, p)
  {
    if a == [] {
      assert a + b == b;
    } else {
      assert (a + b)[1..] == a[1..] + b;
      FilterAppend(a[1..], b, p);
    }
  }

  /** Filtering a sequence extended by one element extends the result by
      that element exactly when it passes. */
  lemma FilterSnoc<T(!new)>(s: seq<T>, x: T, p: T -> bool)
    ensures Filter(s + [x], p) == Filter(s, p) + (if p(x) then [x] else [])
  {
    FilterAppend(s, [x], p);
    assert Filter([x], p) == (if p(x) then [x] else []) + Filter([], p);
  }

  /** Filtering with a test every element passes keeps everything. */
  lemma {:induction false} FilterKeepsAll<T(!new)>(s: seq<T>, p: T -> bool)
    requires forall x :: x in s ==> p(x)
    ensures Filter(s, p) == s
  {
    if s != [] {
      FilterKeepsAll(s[1..], p);
    }
  }

  /** A prefix one longer is the shorter prefix and one more element. */
  lemma TakeSnoc<T>(s: seq<T>, k: int)
    requires 0 <= k < |s|
    ensures s[..k + 1] == s[..k] + [s[k]]
  {
  }

  /** A filtered sequence without repetitions stays without repetitions. */
  lemma {:induction false} FilterDistinct<T(!new)>(s: seq<T>, p: T -> bool)
    requires Distinct(s)
    ensures Distinct(Filter(s, p))
  {
    if s != [] {
      FilterDistinct(s[1..], p);
      assert s[0] !in s[1..];
    }
  }

  /** The sequence of distinct elements of `s`, each where it first occurs:
      the key order of a Python dictionary filled by scanning `s`. */
  function Dedup<T(==,!new)>(s: seq<T>): (r: seq<T>)
    ensures Distinct(r)
    ensures forall x :: x in r <==> x in s
    decreases |s|
  {
    if s == [] then []
    else
      var d := Dedup(s[..|s| - 1]);
      assert forall x :: x in s <==> x in s[..|s| - 1] || x == s[|s| - 1];
      if s[|s| - 1] in d then d else d + [s[|s| - 1]]
  }

  /** The position of the last occurrence of `x`: where a dictionary filled
      by scanning `s` takes the value stored under `x`. */
  function LastIndexOf<T(==)>(s: seq<T>, x: T): (k: nat)
    requires x in s
    ensures k < |s| && s[k] == x
    ensures forall j :: k < j < |s| ==> s[j] != x
  {
    if s[|s| - 1] == x then |s| - 1
    else
      assert x in s[..|s| - 1];
      LastIndexOf(s[..|s| - 1], x)
  }

  /** The position of the first occurrence of `x`. */
  function FirstIndexOf<T(==)>(s: seq<T>, x: T): (k: nat)
    requires x in s
    ensures k < |s| && s[k] == x
    ensures forall j :: 0 <= j < k ==> s[j] != x
  {
    if s[0] == x then 0 else 1 + FirstIndexOf(s[1..], x)
  }

  /** Filtering keeps the order of a sequence without repetitions: of two
      survivors, the earlier one sits earlier in `s`. */
  lemma {:induction false} FilterOrder<T(!new)>(s: seq<T>, p: T -> bool, i: int, j: int)
    requires Distinct(s)
    requires 0 <= i < j < |Filter(s, p)|
    ensures Filter(s, p)[i] in s && Filter(s, p)[j] in s
    ensures FirstIndexOf(s, Filter(s, p)[i]) < FirstIndexOf(s, Filter(s, p)[j])
    decreases |s|
  {
    var f := Filter(s, p);
    var t := Filter(s[1..], p);
    var h := if p(s[0]) then [s[0]] else [];
    assert f == h + t;
    var i', j' := i - |h|, j - |h|;
    assert f[j] == t[j'] && t[j'] in t;
    var y := f[j];
    assert y in s[1..];
    TailFirstIndex(s, y);
    if i' < 0 {
      assert f[i] == s[0];
    } else {
      assert f[i] == t[i'] && t[i'] in t;
      TailFirstIndex(s, f[i]);
      FilterOrder(s[1..], p, i', j');
    }
  }

  /** Past the head, positions in `s` are one more than in its tail. */
  lemma TailFirstIndex<T>(s: seq<T>, x: T)
    requires Distinct(s) && s != [] && x in s[1..]
    ensures x in s && FirstIndexOf(s, x) == 1 + FirstIndexOf(s[1..], x)
  {
    assert s[0] != x by {
      var k := FirstIndexOf(s[1..], x);
      assert s[k + 1] == x;
    }
  }

  /** `Dedup` keeps first occurrences in their order: the dictionary key
      order of a scan. */
  lemma {:induction false} DedupOrder<T(!new)>(s: seq<T>, i: int, j: int)
    requires 0 <= i < j < |Dedup(s)|
    ensures Dedup(s)[i] in s && Dedup(s)[j] in s
    ensures FirstIndexOf(s, Dedup(s)[i]) < FirstIndexOf(s, Dedup(s)[j])
    decreases |s|
  {
    var d := Dedup(s);
    var init := s[..|s| - 1];
    var di := Dedup(init);
    assert d[i] in d && d[j] in d;
    assert d[i] in di by {
      assert i < |di|;
    }
    FirstIndexOfPrefix(s, init, d[i]);
    if j < |di| {
      FirstIndexOfPrefix(s, init, d[j]);
      DedupOrder(init, i, j);
    } else {
      assert d[j] == s[|s| - 1] && d[j] !in init;
    }
  }

  /** An element of a prefix has its first occurrence inside the prefix. */
  lemma FirstIndexOfPrefix<T>(s: seq<T>, init: seq<T>, x: T)
    requires init <= s && x in init
    ensures x in s && FirstIndexOf(s, x) == FirstIndexOf(init, x)
  {
    var k := FirstIndexOf(init, x);
    assert s[k] == x;
    var m := FirstIndexOf(s, x);
    assert m <= k;
    assert init[m] == x;
  }

  /** A sequence without repetitions whose elements all occur in `q` is no
      longer than `q`. */
  lemma {:induction false} DistinctLengthBound<T>(p: seq<T>, q: seq<T>)
    requires Distinct(p)
    requires forall x :: x in p ==> x in q
    ensures |p| <= |q|
    decreases |p|
  {
    if p != [] {
      assert p[0] in p;
      var i := FirstIndexOf(q, p[0]);
      var rest := q[..i] + q[i + 1..];
      forall x | x in p[1..] ensures x in rest {
        assert x in p && x != p[0];
        var k := FirstIndexOf(q, x);
        if k < i {
          assert rest[k] == x;
        } else {
          assert rest[k - 1] == x;
        }
      }
      DistinctLengthBound(p[1..], rest);
    }
  }
}
