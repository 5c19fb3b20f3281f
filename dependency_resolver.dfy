/**
 * The dependency resolver shared by the bundle config resolver and the plugin
 * loader: it turns a map "name -> names it must load after" into one loading
 * order, or raises UnresolvableDependencies when no such order exists.
 *
 * The resolver works in passes over the names still pending, in key order.
 * A name is emitted as soon as every dependency of it that is itself a key
 * has been emitted (dependencies on names that are not keys are ignored);
 * names that cannot be emitted yet stay pending for the next pass. A pass
 * that emits nothing ends the resolution with the pending names.
 */
module DependencyResolver {
  import opened Wrappers
  import opened Seqs
  import opened OrderedMap

  /** The names `n` must load after; a name that is not a key has none. */
  function Requires(deps: map<string, seq<string>>, n: string): seq<string> {
    if n in deps then deps[n] else []
  }

  /** Every dependency of `n` that is itself a key is already in `ordered`. */
  predicate Resolvable(deps: map<string, seq<string>>, n: string, ordered: seq<string>) {
    forall d :: d in Requires(deps, n) && d in deps ==> d in ordered
  }

  /** Every name of `ordered` was resolvable by the names before it. */
  ghost predicate Closed(deps: map<string, seq<string>>, ordered: seq<string>) {
    forall i :: 0 <= i < |ordered| ==> Resolvable(deps, ordered[i], ordered[..i])
  }

  /** Every name of `s` comes after those of its dependencies that occur in `s`. */
  ghost predicate RespectsDependencies(deps: map<string, seq<string>>, s: seq<string>) {
    forall i, d :: 0 <= i < |s| && d in Requires(deps, s[i]) && d in s ==> d in s[..i]
  }

  /** `s` lists every key exactly once, each after all of its dependencies that are keys. */
  ghost predicate IsTopologicalOrder(deps: map<string, seq<string>>, s: seq<string>) {
    && Distinct(s)
    && (forall x :: x in s <==> x in deps)
    && RespectsDependencies(deps, s)
  }

  /**
   * A nonempty list of keys each of which depends on a member of the list:
   * following those dependencies never leaves the list, so it holds a cycle.
   */
  ghost predicate Stuck(deps: map<string, seq<string>>, pending: seq<string>) {
    && pending != []
    && (forall n :: n in pending ==> n in deps)
    && forall n {:trigger Requires(deps, n)} :: n in pending ==> exists d :: d in Requires(deps, n) && d in pending
  }

  lemma ClosedExtend(deps: map<string, seq<string>>, ordered: seq<string>, n: string)
    ensures Closed(deps, ordered) && Resolvable(deps, n, ordered) ==> Closed(deps, ordered + [n])
  {
    var s := ordered + [n];
    if Closed(deps, ordered) && Resolvable(deps, n, ordered) {
    forall i | 0 <= i < |s| ensures Resolvable(deps, s[i], s[..i]) {
      if i < |ordered| {
        assert s[..i] == ordered[..i];
      } else {
        assert s[..i] == ordered;
      }
    }
    }
  }

  /**
   * One pass: returns the names emitted so far and the names still pending,
   * in their original order.
   */
  function Pass(deps: map<string, seq<string>>, ordered: seq<string>, pending: seq<string>): (r: (seq<string>, seq<string>))
    ensures |ordered| <= |r.0| && r.0[..|ordered|] == ordered
    ensures |r.0| + |r.1| == |ordered| + |pending|
    ensures forall x :: x in r.0 + r.1 <==> x in ordered + pending
    decreases |pending|
  {
    if pending == [] then (ordered, [])
    else if Resolvable(deps, pending[0], ordered) then
      var r := Pass(deps, ordered + [pending[0]], pending[1..]);
      assert ordered + pending == (ordered + [pending[0]]) + pending[1..];
      assert r.0[..|ordered|] == r.0[..|ordered| + 1][..|ordered|];
      r
    else
      var (o, rest) := Pass(deps, ordered, pending[1..]);
      assert forall x :: x in ordered + pending <==> x in ordered + pending[1..] || x == pending[0];
      (o, [pending[0]] + rest)
  }

  lemma {:induction false} PassDistinct(deps: map<string, seq<string>>, ordered: seq<string>, pending: seq<string>)
    requires Distinct(ordered + pending)
    ensures Distinct(Pass(deps, ordered, pending).0 + Pass(deps, ordered, pending).1)
    decreases |pending|
  {
    if pending != [] {
      if Resolvable(deps, pending[0], ordered) {
        assert ordered + pending == (ordered + [pending[0]]) + pending[1..];
        PassDistinct(deps, ordered + [pending[0]], pending[1..]);
      } else {
        var (o, rest) := Pass(deps, ordered, pending[1..]);
        assert ordered + pending == ordered + [pending[0]] + pending[1..];
        assert Distinct(ordered + pending[1..]) by {
          assert ordered + pending[1..] == (ordered + pending)[..|ordered|] + (ordered + pending)[|ordered| + 1..];
          var s, t := ordered + pending, ordered + pending[1..];
          forall i, j | 0 <= i < j < |t| ensures t[i] != t[j] {
            var i' := if i < |ordered| then i else i + 1;
            var j' := if j < |ordered| then j else j + 1;
            assert t[i] == s[i'] && t[j] == s[j'];
          }
        }
        PassDistinct(deps, ordered, pending[1..]);
        assert pending[0] !in ordered + pending[1..] by {
          var s := ordered + pending;
          forall k | 0 <= k < |ordered + pending[1..]| ensures (ordered + pending[1..])[k] != pending[0] {
            var k' := if k < |ordered| then k else k + 1;
            assert (ordered + pending[1..])[k] == s[k'] && s[|ordered|] == pending[0];
          }
        }
        DistinctInsert(o, pending[0], rest);
        assert o + [pending[0]] + rest == o + ([pending[0]] + rest);
      }
    }
  }

  lemma {:induction false} PassClosed(deps: map<string, seq<string>>, ordered: seq<string>, pending: seq<string>)
    requires Closed(deps, ordered)
    ensures Closed(deps, Pass(deps, ordered, pending).0)
    decreases |pending|
  {
    if pending != [] {
      if Resolvable(deps, pending[0], ordered) {
        ClosedExtend(deps, ordered, pending[0]);
        PassClosed(deps, ordered + [pending[0]], pending[1..]);
      } else {
        PassClosed(deps, ordered, pending[1..]);
      }
    }
  }

  /** A pass that emits nothing leaves every pending name unresolvable. */
  lemma {:induction false} PassStalls(deps: map<string, seq<string>>, ordered: seq<string>, pending: seq<string>)
    requires |Pass(deps, ordered, pending).1| == |pending|
    ensures Pass(deps, ordered, pending).0 == ordered
    ensures forall n :: n in pending ==> !Resolvable(deps, n, ordered)
    decreases |pending|
  {
    if pending != [] {
      if Resolvable(deps, pending[0], ordered) {
        assert false;
      } else {
        PassStalls(deps, ordered, pending[1..]);
      }
    }
  }

  /** A resolvable first pending name is emitted right away. */
  lemma PassEmitsFirst(deps: map<string, seq<string>>, ordered: seq<string>, pending: seq<string>)
    requires pending != [] && Resolvable(deps, pending[0], ordered)
    ensures |ordered| < |Pass(deps, ordered, pending).0|
    ensures Pass(deps, ordered, pending).0[|ordered|] == pending[0]
  {
    var r := Pass(deps, ordered + [pending[0]], pending[1..]);
    assert r.0[..|ordered| + 1] == ordered + [pending[0]];
    assert r.0[|ordered|] == r.0[..|ordered| + 1][|ordered|];
  }

  /** Passes until nothing is pending, or until a pass emits nothing. */
  function Resolve(deps: map<string, seq<string>>, ordered: seq<string>, pending: seq<string>): (r: Result<seq<string>, Exception>)
    requires Distinct(ordered + pending)
    requires forall x :: x in ordered + pending <==> x in deps
    requires Closed(deps, ordered)
    ensures r.Success? ==> IsTopologicalOrder(deps, r.value) && |ordered| <= |r.value| && r.value[..|ordered|] == ordered
    ensures r.Failure? ==> r.error.UnresolvableDependencies? && Stuck(deps, r.error.pending)
    decreases |pending|
  {
    if pending == [] then
      assert ordered + pending == ordered;
      Success(ordered)
    else
      var (o, rest) := Pass(deps, ordered, pending);
      PassClosed(deps, ordered, pending);
      if |rest| == |pending| then
        PassStalls(deps, ordered, pending);
        Failure(UnresolvableDependencies(pending))
      else
        PassDistinct(deps, ordered, pending);
        var r := Resolve(deps, o, rest);
        if r.Success? then
          assert r.value[..|ordered|] == r.value[..|o|][..|ordered|];
          r
        else r
  }

  /** orderByDependencies: resolve every key of `dependencies`, starting from the first key. */
  function OrderByDependencies(dependencies: OMap<seq<string>>): (r: Result<seq<string>, Exception>)
    requires dependencies.Valid()
    ensures r.Success? ==> IsTopologicalOrder(dependencies.vals, r.value)
    ensures r.Failure? ==> r.error.UnresolvableDependencies? && Stuck(dependencies.vals, r.error.pending)
  {
    assert [] + dependencies.keys == dependencies.keys;
    Resolve(dependencies.vals, [], dependencies.keys)
  }

  /** The position of the first name of `s` that belongs to `members`. */
  ghost function FirstIndexIn(s: seq<string>, members: seq<string>): (i: nat)
    requires exists k :: 0 <= k < |s| && s[k] in members
    ensures i < |s| && s[i] in members
    ensures forall j :: 0 <= j < i ==> s[j] !in members
  {
    if s[0] in members then 0
    else
      assert exists k :: 0 <= k < |s[1..]| && s[1..][k] in members by {
        var k :| 0 <= k < |s| && s[k] in members;
        assert s[1..][k - 1] == s[k];
      }
      1 + FirstIndexIn(s[1..], members)
  }

  /** A stuck set (a cycle) rules out every loading order. */
  lemma StuckHasNoOrder(deps: map<string, seq<string>>, pending: seq<string>, s: seq<string>)
    requires Stuck(deps, pending)
    ensures !IsTopologicalOrder(deps, s)
  {
    if forall x :: x in s <==> x in deps {
      assert pending[0] in s;
      var k :| 0 <= k < |s| && s[k] == pending[0];
      // the earliest member of `pending` in `s` has a dependency in `pending`, which comes later
      var i := FirstIndexIn(s, pending);
      var d :| d in Requires(deps, s[i]) && d in pending;
      assert d in s;
      forall j | 0 <= j < i ensures s[..i][j] != d {
        assert s[..i][j] == s[j] && s[j] !in pending;
      }
      assert d !in s[..i];
      assert !RespectsDependencies(deps, s);
    }
  }

  /** The resolver fails only when no loading order exists at all. */
  lemma ResolverComplete(dependencies: OMap<seq<string>>, s: seq<string>)
    requires dependencies.Valid()
    requires IsTopologicalOrder(dependencies.vals, s)
    ensures OrderByDependencies(dependencies).Success?
  {
    var r := OrderByDependencies(dependencies);
    if r.Failure? {
      StuckHasNoOrder(dependencies.vals, r.error.pending, s);
    }
  }

  /** A first key with no dependency among the keys is emitted first. */
  lemma FirstKeyFirst(dependencies: OMap<seq<string>>)
    requires dependencies.Valid()
    requires dependencies.keys != []
    requires forall d :: d in Requires(dependencies.vals, dependencies.keys[0]) ==> d !in dependencies.vals
    requires OrderByDependencies(dependencies).Success?
    ensures OrderByDependencies(dependencies).value[0] == dependencies.keys[0]
  {
    var deps, keys := dependencies.vals, dependencies.keys;
    assert [] + keys == keys;
    var (o, rest) := Pass(deps, [], keys);
    assert Resolvable(deps, keys[0], []);
    PassEmitsFirst(deps, [], keys);
    PassDistinct(deps, [], keys);
    PassClosed(deps, [], keys);
    assert o[0] == keys[0];
    assert |rest| < |keys|;
    var r := Resolve(deps, o, rest);
    assert Resolve(deps, [], keys) == r;
    assert r.value[..|o|] == o;
    assert r.value[0] == r.value[..|o|][0];
  }

  /** A name that depends on itself can never be resolved. */
  lemma SelfDependencyUnresolvable(name: string)
    ensures OrderByDependencies(Empty<seq<string>>().Set(name, [name])).Failure?
  {
  }

  /** Two names that depend on each other can never be resolved. */
  lemma MutualDependencyUnresolvable(a: string, b: string)
    requires a != b
    ensures OrderByDependencies(Empty<seq<string>>().Set(a, [b]).Set(b, [a])).Failure?
  {
  }

  /** A loading order that respects the dependencies still does without its last name. */
  lemma RespectsWithoutLast(deps: map<string, seq<string>>, s: seq<string>)
    requires s != [] && RespectsDependencies(deps, s)
    ensures RespectsDependencies(deps, s[..|s| - 1])
  {
    var s' := s[..|s| - 1];
    forall i, d | 0 <= i < |s'| && d in Requires(deps, s'[i]) && d in s' ensures d in s'[..i] {
      assert s[i] == s'[i] && s[..i] == s'[..i];
      assert d in s;
    }
  }

  /** In a loading order without repeats, no name depends on the last one. */
  lemma LastNotRequired(deps: map<string, seq<string>>, s: seq<string>)
    requires s != [] && Distinct(s) && RespectsDependencies(deps, s)
    ensures forall y :: y in s ==> s[|s| - 1] !in Requires(deps, y)
  {
    var x := s[|s| - 1];
    forall y | y in s ensures x !in Requires(deps, y) {
      var j :| 0 <= j < |s| && s[j] == y;
      assert x in s;
      if j < |s| - 1 {
        assert x !in s[..j] by {
          assert s[..j] == s[..|s| - 1][..j];
        }
      }
    }
  }

  /** A name nobody depends on may be appended to an order that respects the dependencies. */
  lemma RespectsAppend(deps: map<string, seq<string>>, f: seq<string>, x: string)
    requires RespectsDependencies(deps, f) && x !in Requires(deps, x)
    requires forall y :: y in f ==> x !in Requires(deps, y)
    ensures RespectsDependencies(deps, f + [x])
  {
    var g := f + [x];
    forall i, d | 0 <= i < |g| && d in Requires(deps, g[i]) && d in g ensures d in g[..i] {
      if i < |f| {
        assert g[i] == f[i] && g[..i] == f[..i];
        assert f[i] in f;
      } else {
        assert g[i] == x && g[..i] == f;
      }
    }
  }

  /** Dropping names from a loading order keeps the survivors in a valid relative order. */
  lemma {:induction false} FilterRespectsDependencies(deps: map<string, seq<string>>, s: seq<string>, p: string -> bool)
    requires Distinct(s) && RespectsDependencies(deps, s)
    ensures RespectsDependencies(deps, Filter(s, p))
  {
    if s != [] {
      var s', x := s[..|s| - 1], s[|s| - 1];
      assert s == s' + [x];
      RespectsWithoutLast(deps, s);
      LastNotRequired(deps, s);
      assert Distinct(s');
      FilterRespectsDependencies(deps, s', p);
      var f' := Filter(s', p);
      if p(x) {
        assert Filter(s, p) == f' + [x];
        assert x in s;
        forall y | y in f' ensures x !in Requires(deps, y) {
          assert y in s';
          assert y in s;
        }
        RespectsAppend(deps, f', x);
      } else {
        assert Filter(s, p) == f';
      }
    }
  }
}
