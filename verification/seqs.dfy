/** `Array.prototype` operations the application uses (`filter`, `find`,
    `some`, counting with `filter(..).length`) and first-occurrence
    de-duplication, stated over Dafny sequences. */
module Seqs {
  import opened Js

  /** `s.filter(p)`: the elements satisfying `p`, in their original order. */
  function Filter<T>(p: T -> bool, s: seq<T>): (r: seq<T>)
    ensures |r| <= |s|
    ensures forall i :: 0 <= i < |r| ==> r[i] in s && p(r[i])
    ensures forall i :: 0 <= i < |s| && p(s[i]) ==> s[i] in r
  {
    if s == [] then []
    else if p(s[0]) then [s[0]] + Filter(p, s[1..])
    else Filter(p, s[1..])
  }

  /** Filtering a concatenation filters each part and keeps the parts in
      order; this is what "keeps the rest in order" means. */
  lemma {:induction false} FilterAppend<T>(p: T -> bool, a: seq<T>, b: seq<T>)
    ensures Filter(p, a + b) == Filter(p, a) + Filter(p, b)
  {
    if a == [] {
      assert a + b == b;
    } else {
      assert (a + b)[1..] == a[1..] + b;
      FilterAppend(p, a[1..], b);
    }
  }

  /** A filter that every element passes changes nothing. */
  lemma {:induction false} FilterAllKept<T>(p: T -> bool, s: seq<T>)
    requires forall i :: 0 <= i < |s| ==> p(s[i])
    ensures Filter(p, s) == s
  {
    if s != [] {
      FilterAllKept(p, s[1..]);
    }
  }

  /** Appending an element the filter drops, to a sequence it keeps whole,
      filters back to that sequence. */
  lemma FilterDropsAppended<T>(p: T -> bool, s: seq<T>, x: T)
    requires forall i :: 0 <= i < |s| ==> p(s[i])
    requires !p(x)
    ensures Filter(p, s + [x]) == s
  {
    FilterAppend(p, s, [x]);
    FilterAllKept(p, s);
    assert [x][1..] == [];
  }

  /** Two sequences matched position by position through `key` stay matched
      when each is filtered by the same test on the key. */
  lemma {:induction false} FilterKeepsMatched<A, B>(key: B -> A, p: A -> bool, q: B -> bool,
                                                    xs: seq<A>, ys: seq<B>)
    requires |xs| == |ys| && forall i :: 0 <= i < |xs| ==> key(ys[i]) == xs[i]
    requires forall y :: q(y) == p(key(y))
    ensures |Filter(p, xs)| == |Filter(q, ys)|
    ensures forall i :: 0 <= i < |Filter(p, xs)| ==> key(Filter(q, ys)[i]) == Filter(p, xs)[i]
  {
    if xs != [] {
      FilterKeepsMatched(key, p, q, xs[1..], ys[1..]);
      assert q(ys[0]) == p(xs[0]);
    }
  }

  /** A filter that no element passes leaves nothing. */
  lemma {:induction false} FilterNoneKept<T>(p: T -> bool, s: seq<T>)
    requires forall i :: 0 <= i < |s| ==> !p(s[i])
    ensures Filter(p, s) == []
  {
    if s != [] {
      FilterNoneKept(p, s[1..]);
    }
  }

  /** Filtering twice by the same predicate is filtering once. */
  lemma FilterIdempotent<T>(p: T -> bool, s: seq<T>)
    ensures Filter(p, Filter(p, s)) == Filter(p, s)
  {
    FilterAllKept(p, Filter(p, s));
  }

  /** `xs.flatMap(f)`: the sequences `f` gives for each element, one after
      the other. */
  function FlatMap<A, B>(f: A -> seq<B>, xs: seq<A>): seq<B>
  {
    if xs == [] then [] else FlatMap(f, xs[..|xs| - 1]) + f(xs[|xs| - 1])
  }

  /** Flat-mapping a concatenation flat-maps each part, in order. */
  lemma {:induction false} FlatMapAppend<A, B>(f: A -> seq<B>, a: seq<A>, b: seq<A>)
    ensures FlatMap(f, a + b) == FlatMap(f, a) + FlatMap(f, b)
    decreases |b|
  {
    if b == [] {
      assert a + b == a;
    } else {
      var init := b[..|b| - 1];
      assert (a + b)[..|a + b| - 1] == a + init;
      assert (a + b)[|a + b| - 1] == b[|b| - 1];
      FlatMapAppend(f, a, init);
    }
  }

  /** The j-th element given for `xs[i]` sits right after everything given
      for the elements before it. */
  lemma FlatMapAt<A, B>(f: A -> seq<B>, xs: seq<A>, i: nat, j: nat)
    requires i < |xs| && j < |f(xs[i])|
    ensures |FlatMap(f, xs[..i])| + j < |FlatMap(f, xs)|
    ensures FlatMap(f, xs)[|FlatMap(f, xs[..i])| + j] == f(xs[i])[j]
  {
    var upto := xs[..i + 1];
    assert xs == upto + xs[i + 1..];
    FlatMapAppend(f, upto, xs[i + 1..]);
    assert upto[..|upto| - 1] == xs[..i] && upto[|upto| - 1] == xs[i];
    var front := FlatMap(f, xs[..i]) + f(xs[i]);
    assert FlatMap(f, xs)[|FlatMap(f, xs[..i])| + j] == front[|FlatMap(f, xs[..i])| + j];
  }

  /** `s.filter(p).length`. */
  function Count<T>(p: T -> bool, s: seq<T>): (n: nat)
    ensures n <= |s|
  {
    |Filter(p, s)|
  }

  /** The index `s.findIndex(p)` returns, when there is one. */
  function FindIndex<T>(p: T -> bool, s: seq<T>): (r: Option<nat>)
    ensures r.Some? ==> r.value < |s| && p(s[r.value])
    ensures r.Some? ==> forall j :: 0 <= j < r.value ==> !p(s[j])
    ensures r.None? <==> forall j :: 0 <= j < |s| ==> !p(s[j])
  {
    if s == [] then None
    else if p(s[0]) then Some(0)
    else match FindIndex(p, s[1..])
      case None => None
      case Some(i) => Some(i + 1)
  }

  /** `s.find(p)`: the first element satisfying `p`, or `undefined`. */
  function Find<T>(p: T -> bool, s: seq<T>): (r: Option<T>)
    ensures r.Some? ==> r.value in s && p(r.value)
    ensures r.Some? ==> exists i :: 0 <= i < |s| && s[i] == r.value && forall j :: 0 <= j < i ==> !p(s[j])
    ensures r.None? <==> forall j :: 0 <= j < |s| ==> !p(s[j])
  {
    match FindIndex(p, s)
    case None => None
    case Some(i) => Some(s[i])
  }

  /** `find` looks at the head first, then at the rest. */
  lemma FindCons<T>(p: T -> bool, s: seq<T>)
    requires s != []
    ensures Find(p, s) == if p(s[0]) then Some(s[0]) else Find(p, s[1..])
  {
    if !p(s[0]) {
      match FindIndex(p, s[1..])
      case None =>
      case Some(i) => assert s[1..][i] == s[i + 1];
    }
  }

  /** Dropping elements that `q` rejects anyway does not change what `q`
      finds first. */
  lemma {:induction false} FindAfterFilter<T>(q: T -> bool, p: T -> bool, s: seq<T>)
    requires forall x :: q(x) ==> p(x)
    ensures Find(q, Filter(p, s)) == Find(q, s)
  {
    if s != [] {
      FindCons(q, s);
      FindAfterFilter(q, p, s[1..]);
      if p(s[0]) {
        var kept := Filter(p, s);
        assert kept == [s[0]] + Filter(p, s[1..]);
        assert kept[1..] == Filter(p, s[1..]);
        FindCons(q, kept);
      }
    }
  }

  /** Dropping elements that `q` rejects anyway does not change what `q`
      keeps. */
  lemma {:induction false} FilterAfterFilter<T>(q: T -> bool, p: T -> bool, s: seq<T>)
    requires forall x :: q(x) ==> p(x)
    ensures Filter(q, Filter(p, s)) == Filter(q, s)
  {
    if s != [] {
      FilterAfterFilter(q, p, s[1..]);
      if p(s[0]) {
        var kept := Filter(p, s);
        assert kept == [s[0]] + Filter(p, s[1..]);
        assert kept[1..] == Filter(p, s[1..]);
      }
    }
  }

  /** `s.some(p)`. */
  function Any<T>(p: T -> bool, s: seq<T>): (r: bool)
    ensures r <==> exists i :: 0 <= i < |s| && p(s[i])
  {
    FindIndex(p, s).Some?
  }

  /** No element occurs twice. */
  predicate NoDuplicates<T(==)>(s: seq<T>) {
    forall i, j :: 0 <= i < j < |s| ==> s[i] != s[j]
  }

  /** Filtering never introduces a duplicate. */
  lemma {:induction false} FilterNoDuplicates<T>(p: T -> bool, s: seq<T>)
    requires NoDuplicates(s)
    ensures NoDuplicates(Filter(p, s))
  {
    if s != [] {
      assert NoDuplicates(s[1..]) by {
        forall i, j | 0 <= i < j < |s[1..]| ensures s[1..][i] != s[1..][j] {
          assert s[1..][i] == s[i + 1] && s[1..][j] == s[j + 1];
        }
      }
      FilterNoDuplicates(p, s[1..]);
      var rest := Filter(p, s[1..]);
      if p(s[0]) {
        assert s[0] !in rest by {
          forall k | 0 <= k < |rest| ensures rest[k] != s[0] {
            assert rest[k] in s[1..];
            var m :| 0 <= m < |s[1..]| && s[1..][m] == rest[k];
            assert s[m + 1] == rest[k];
          }
        }
        var r := [s[0]] + rest;
        forall i, j | 0 <= i < j < |r| ensures r[i] != r[j] {
          if i == 0 {
            assert r[j] == rest[j - 1];
          } else {
            assert r[i] == rest[i - 1] && r[j] == rest[j - 1];
          }
        }
      }
    }
  }

  /** Over a sequence without duplicates, counting the elements that pass a
      test is counting the set of them. */
  lemma {:induction false} CountAsSet<T>(p: T -> bool, s: seq<T>)
    requires NoDuplicates(s)
    ensures Count(p, s) == |set x | x in s && p(x)|
  {
    if s == [] {
      assert (set x | x in s && p(x)) == {};
    } else {
      var t := s[1..];
      assert NoDuplicates(t) by {
        forall i, j | 0 <= i < j < |t| ensures t[i] != t[j] {
          assert t[i] == s[i + 1] && t[j] == s[j + 1];
        }
      }
      CountAsSet(p, t);
      var rest := set x | x in t && p(x);
      assert s[0] !in t by {
        forall k | 0 <= k < |t| ensures t[k] != s[0] {
          assert t[k] == s[k + 1];
        }
      }
      assert s == [s[0]] + t;
      if p(s[0]) {
        assert (set x | x in s && p(x)) == {s[0]} + rest;
      } else {
        assert (set x | x in s && p(x)) == rest;
      }
    }
  }

  /** The members of `elems` that pass `p`. */
  ghost function Passing<T>(p: T -> bool, elems: set<T>): set<T> {
    set x | x in elems && p(x)
  }

  /** The same count, over the set a duplicate-free sequence enumerates. */
  lemma CountOverSet<T>(p: T -> bool, s: seq<T>, elems: set<T>)
    requires NoDuplicates(s) && forall x :: x in s <==> x in elems
    ensures Count(p, s) == |Passing(p, elems)|
  {
    CountAsSet(p, s);
    assert (set x | x in s && p(x)) == (set x | x in elems && p(x));
  }

  /** The distinct elements of `s`, each at its first occurrence: the order
      in which the keys of an object built from `s` are enumerated. */
  function Distinct<T(==)>(s: seq<T>): (r: seq<T>)
    ensures |r| <= |s|
    ensures forall i :: 0 <= i < |r| ==> r[i] in s
    ensures forall i :: 0 <= i < |s| ==> s[i] in r
    ensures NoDuplicates(r)
  {
    if s == [] then []
    else
      var r := Distinct(s[..|s| - 1]);
      assert forall i :: 0 <= i < |s| - 1 ==> s[i] == s[..|s| - 1][i];
      if s[|s| - 1] in r then r else r + [s[|s| - 1]]
  }
}
