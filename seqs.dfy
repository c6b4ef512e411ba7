/** List comprehension filtering, `[x for x in s if keep(x)]`, and the
    concatenation of a list of lists. */
module Seqs {

  function Filter<T(!new)>(s: seq<T>, keep: T -> bool): (r: seq<T>)
    ensures |r| <= |s|
    ensures forall x :: x in r <==> x in s && keep(x)
    ensures (forall i :: 0 <= i < |s| ==> keep(s[i])) ==> r == s
    ensures (exists i :: 0 <= i < |s| && !keep(s[i])) ==> |r| < |s|
  {
    if s == [] then []
    else
      var rest := Filter(s[1..], keep);
      assert s == [s[0]] + s[1..];
      if keep(s[0]) then [s[0]] + rest else rest
  }

  /** Filtering distributes over concatenation: kept elements stay in their
      original order. */
  lemma {:induction false} FilterAppend<T(!new)>(a: seq<T>, b: seq<T>, keep: T -> bool)
    ensures Filter(a + b, keep) == Filter(a, keep) + Filter(b, keep)
  {
    if a == [] {
      assert a + b == b;
    } else {
      assert (a + b)[1..] == a[1..] + b;
      FilterAppend(a[1..], b, keep);
    }
  }

  ghost predicate NoDuplicates<T>(s: seq<T>) {
    forall i, j :: 0 <= i < j < |s| ==> s[i] != s[j]
  }

  lemma {:induction false} FilterNoDuplicates<T(!new)>(s: seq<T>, keep: T -> bool)
    requires NoDuplicates(s)
    ensures NoDuplicates(Filter(s, keep))
  {
    if s != [] {
      FilterNoDuplicates(s[1..], keep);
      var rest := Filter(s[1..], keep);
      assert s[0] !in s[1..];
      assert s[0] !in rest;
      if keep(s[0]) {
        var r := [s[0]] + rest;
        forall i, j | 0 <= i < j < |r| ensures r[i] != r[j] {
          if i > 0 { assert r[i] == rest[i - 1] && r[j] == rest[j - 1]; }
          else { assert r[j] in rest; }
        }
      }
    }
  }

  lemma AppendAssoc<T>(a: seq<T>, b: seq<T>, c: seq<T>)
    ensures a + (b + c) == (a + b) + c
  {
  }

  /** The lists one after the other. */
  function Flatten<T>(ss: seq<seq<T>>): seq<T> {
    if ss == [] then [] else ss[0] + Flatten(ss[1..])
  }

  lemma {:induction false} FlattenAppend<T>(a: seq<seq<T>>, b: seq<seq<T>>)
    ensures Flatten(a + b) == Flatten(a) + Flatten(b)
  {
    if a == [] {
      assert a + b == b;
    } else {
      assert (a + b)[0] == a[0] && (a + b)[1..] == a[1..] + b;
      FlattenAppend(a[1..], b);
      assert a[0] + (Flatten(a[1..]) + Flatten(b)) == (a[0] + Flatten(a[1..])) + Flatten(b);
    }
  }

  lemma FlattenCons<T>(x: seq<T>, rest: seq<seq<T>>)
    ensures Flatten([x] + rest) == x + Flatten(rest)
  {
    assert ([x] + rest)[0] == x && ([x] + rest)[1..] == rest;
  }

  /** Flattening a prefix one list longer appends that list. */
  lemma FlattenExtend<T>(ss: seq<seq<T>>, i: nat)
    requires i < |ss|
    ensures Flatten(ss[..i + 1]) == Flatten(ss[..i]) + ss[i]
  {
    assert ss[..i + 1] == ss[..i] + [ss[i]];
    FlattenAppend(ss[..i], [ss[i]]);
    assert Flatten([ss[i]]) == ss[i] + Flatten([]);
  }

  /** A list is its elements before k, the k-th, and those after it. */
  lemma SplitAt<T>(s: seq<T>, k: nat)
    requires k < |s|
    ensures s == s[..k] + [s[k]] + s[k + 1..]
  {
  }

  lemma FlattenMiddle<T>(a: seq<seq<T>>, x: seq<T>, b: seq<seq<T>>)
    ensures Flatten(a + [x] + b) == Flatten(a) + x + Flatten(b)
  {
    FlattenAppend(a + [x], b);
    FlattenAppend(a, [x]);
    assert [x] == [x] + [];
    FlattenCons(x, []);
  }

  /** The k-th list sits between the lists before it and those after it. */
  lemma FlattenAt<T>(ss: seq<seq<T>>, k: nat)
    requires k < |ss|
    ensures Flatten(ss) == Flatten(ss[..k]) + ss[k] + Flatten(ss[k + 1..])
  {
    SplitAt(ss, k);
    FlattenMiddle(ss[..k], ss[k], ss[k + 1..]);
  }

  /** Lists of one or two elements flatten to between one and two elements
      per list. */
  lemma {:induction false} FlattenBounds<T>(ss: seq<seq<T>>)
    requires forall k :: 0 <= k < |ss| ==> 1 <= |ss[k]| <= 2
    ensures |ss| <= |Flatten(ss)| <= 2 * |ss|
  {
    if ss != [] {
      FlattenBounds(ss[1..]);
    }
  }

  /** render(start, xs[0]), render(start + 1, xs[1]), ..., as
      enumerate(xs, start) numbers the elements. */
  function Numbered<T, U>(xs: seq<T>, start: nat, render: (nat, T) -> U): (r: seq<U>)
    ensures |r| == |xs|
    decreases |xs|
  {
    if xs == [] then [] else [render(start, xs[0])] + Numbered(xs[1..], start + 1, render)
  }

  /** The flattened numbering starts with the first element's lists. */
  lemma FlattenNumbered<T, U>(xs: seq<T>, start: nat, render: (nat, T) -> seq<U>)
    requires xs != []
    ensures Flatten(Numbered(xs, start, render)) == render(start, xs[0]) + Flatten(Numbered(xs[1..], start + 1, render))
  {
    FlattenCons(render(start, xs[0]), Numbered(xs[1..], start + 1, render));
  }

  lemma {:induction false} NumberedAt<T, U>(xs: seq<T>, start: nat, render: (nat, T) -> U, k: nat)
    requires k < |xs|
    ensures Numbered(xs, start, render)[k] == render(start + k, xs[k])
    decreases |xs|
  {
    if k > 0 {
      NumberedAt(xs[1..], start + 1, render, k - 1);
      assert xs[1..][k - 1] == xs[k];
    }
  }
}
