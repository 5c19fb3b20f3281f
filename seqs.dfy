/** Sequence helpers standing in for PHP's array_filter, array_unique and array_reverse on lists. */
module Seqs {

  ghost predicate Distinct<T>(s: seq<T>) {
    forall i, j :: 0 <= i < j < |s| ==> s[i] != s[j]
  }

  /** The elements of `s` that satisfy `p`, in their original order. */
  function Filter<T(!new)>(s: seq<T>, p: T -> bool): (r: seq<T>)
    ensures |r| <= |s|
    ensures forall x :: x in r <==> x in s && p(x)
  {
    if s == [] then []
    else Filter(s[..|s| - 1], p) + (if p(s[|s| - 1]) then [s[|s| - 1]] else [])
  }

  /** The membership test of a map's domain, as a predicate to filter by. */
  function InDomain<V>(m: map<string, V>): string -> bool {
    k => k in m
  }

  /** The negated membership test of a map's domain. */
  function NotInDomain<V>(m: map<string, V>): string -> bool {
    k => k !in m
  }

  function NotEqualTo<T(==)>(x: T): T -> bool {
    y => y != x
  }

  /** `s` without the occurrences of `x`. */
  function Without<T(==,!new)>(s: seq<T>, x: T): (r: seq<T>)
    ensures forall y :: y in r <==> y in s && y != x
    ensures Distinct(s) ==> Distinct(r)
  {
    FilterDistinct(s, NotEqualTo(x));
    Filter(s, NotEqualTo(x))
  }

  /** Removing the one occurrence of `x` closes the gap it leaves. */
  lemma WithoutSingle<T(!new)>(a: seq<T>, x: T, b: seq<T>)
    requires x !in a && x !in b
    ensures Without(a + [x] + b, x) == a + b
  {
    var p := NotEqualTo(x);
    var ax := a + [x];
    FilterAll(a, p);
    FilterAll(b, p);
    assert Filter([x], p) == [] by {
      assert [x][..0] == [];
    }
    FilterConcat(a, [x], p);
    assert Filter(ax, p) == a;
    FilterConcat(ax, b, p);
    assert Filter(ax + b, p) == a + b;
  }

  /** array_unique on a list: the first occurrence of each element is kept. */
  function Unique<T(==,!new)>(s: seq<T>): (r: seq<T>)
    ensures forall x :: x in r <==> x in s
    ensures Distinct(r)
  {
    if s == [] then []
    else
      var u := Unique(s[..|s| - 1]);
      if s[|s| - 1] in u then u else u + [s[|s| - 1]]
  }

  function Reverse<T>(s: seq<T>): (r: seq<T>)
    ensures |r| == |s|
    ensures forall i :: 0 <= i < |s| ==> r[i] == s[|s| - 1 - i]
  {
    if s == [] then [] else [s[|s| - 1]] + Reverse(s[..|s| - 1])
  }

  /** Filtering distributes over concatenation, so it keeps relative order. */
  lemma {:induction false} FilterConcat<T(!new)>(a: seq<T>, b: seq<T>, p: T -> bool)
    ensures Filter(a + b, p) == Filter(a, p) + Filter(b, p)
    decreases |b|
  {
    if b == [] {
      assert a + b == a;
    } else {
      var b' := b[..|b| - 1];
      assert (a + b)[..|a + b| - 1] == a + b';
      assert (a + b)[|a + b| - 1] == b[|b| - 1];
      FilterConcat(a, b', p);
    }
  }

  lemma {:induction false} FilterDistinct<T(!new)>(s: seq<T>, p: T -> bool)
    ensures Distinct(s) ==> Distinct(Filter(s, p))
  {
    if s != [] && Distinct(s) {
      FilterDistinct(s[..|s| - 1], p);
    }
  }

  lemma {:induction false} FilterAll<T(!new)>(s: seq<T>, p: T -> bool)
    requires forall x :: x in s ==> p(x)
    ensures Filter(s, p) == s
  {
    if s != [] {
      var s', x := s[..|s| - 1], s[|s| - 1];
      assert s == s' + [x];
      FilterAll(s', p);
    }
  }

  /** Putting `x` in front of a list and deduplicating moves `x` to the front. */
  lemma {:induction false} UniqueCons<T(!new)>(x: T, s: seq<T>)
    requires Distinct(s)
    ensures Unique([x] + s) == [x] + Without(s, x)
    decreases |s|
  {
    if s != [] {
      var s' := s[..|s| - 1];
      var last := s[|s| - 1];
      assert ([x] + s)[..|[x] + s| - 1] == [x] + s';
      UniqueCons(x, s');
      assert last !in s';
    }
  }

  /** In a duplicate-free list, each element is new to the part before it. */
  lemma NextIsFresh<T>(s: seq<T>, i: nat)
    requires Distinct(s) && i < |s|
    ensures s[i] !in s[..i]
    ensures s[..i + 1] == s[..i] + [s[i]]
  {
    assert s[..i + 1] == s[..i] + [s[i]];
  }

  /** Inserting an element that is not yet present keeps a list duplicate-free. */
  lemma DistinctInsert<T>(a: seq<T>, x: T, b: seq<T>)
    ensures Distinct(a + b) && x !in a + b ==> Distinct(a + [x] + b)
  {
    if Distinct(a + b) && x !in a + b {
      var s := a + [x] + b;
      forall i, j | 0 <= i < j < |s| ensures s[i] != s[j] {
        var ab := a + b;
        if j < |a| {
          assert s[i] == ab[i] && s[j] == ab[j];
        } else if j == |a| {
          assert s[i] == ab[i] && s[j] == x;
        } else if i < |a| {
          assert s[i] == ab[i] && s[j] == ab[j - 1];
        } else if i == |a| {
          assert s[i] == x && s[j] == ab[j - 1];
        } else {
          assert s[i] == ab[i - 1] && s[j] == ab[j - 1];
        }
      }
    }
  }
}
