/** Sequence helpers shared by the views: the insertion order of a JavaScript `Set`, `Map` or
    object's keys, `Array.prototype.filter` and `Array.prototype.slice`. */
module Seqs {
  import opened Wrappers

  predicate NoDuplicates<T(==,!new)>(s: seq<T>) {
    forall i, j :: 0 <= i < j < |s| ==> s[i] != s[j]
  }

  /** The distinct elements of `xs` in order of first appearance: the order in which a `Set`,
      a `Map` or an object keeps keys inserted one after the other. */
  function Distinct<T(==,!new)>(xs: seq<T>): (r: seq<T>)
    ensures NoDuplicates(r)
    ensures forall x :: x in r <==> x in xs
    ensures |r| <= |xs|
  {
    if xs == [] then []
    else
      var init := xs[..|xs| - 1];
      var x := xs[|xs| - 1];
      assert xs == init + [x];
      var d := Distinct(init);
      if x in d then d else d + [x]
  }

  /** Appending an element adds it at the end unless it is already there. */
  lemma DistinctSnoc<T(!new)>(xs: seq<T>, x: T)
    ensures Distinct(xs + [x]) == if x in Distinct(xs) then Distinct(xs) else Distinct(xs) + [x]
  {
    assert (xs + [x])[..|xs + [x]| - 1] == xs;
  }

  /** A sequence without duplicates is its own list of distinct elements. */
  lemma {:induction false} DistinctOfNoDuplicates<T(!new)>(xs: seq<T>)
    requires NoDuplicates(xs)
    ensures Distinct(xs) == xs
  {
    if xs != [] {
      var init := xs[..|xs| - 1];
      var x := xs[|xs| - 1];
      assert xs == init + [x];
      DistinctOfNoDuplicates(init);
      assert x !in init by {
        forall k | 0 <= k < |init| ensures init[k] != x {
          assert init[k] == xs[k];
        }
      }
      DistinctSnoc(init, x);
    }
  }

  /** The position of the first occurrence of `x` in `xs`. */
  function FirstIndex<T(==)>(xs: seq<T>, x: T): (k: nat)
    requires x in xs
    ensures k < |xs| && xs[k] == x
    ensures forall j :: 0 <= j < k ==> xs[j] != x
  {
    if xs[0] == x then 0 else 1 + FirstIndex(xs[1..], x)
  }

  /** Appending an element does not move the first occurrence of an element already present. */
  lemma FirstIndexSnoc<T>(xs: seq<T>, x: T, y: T)
    requires y in xs
    ensures FirstIndex(xs + [x], y) == FirstIndex(xs, y)
  {
    var k, k' := FirstIndex(xs, y), FirstIndex(xs + [x], y);
    assert (xs + [x])[k] == y;
  }

  /** `xs.find(x => key(x) === id)`: the first element whose key is `id`, and none exactly
      when no element has that key. */
  function FindFirst<T(==)>(xs: seq<T>, key: T -> int, id: int): (r: Option<T>)
    ensures r.None? <==> forall i :: 0 <= i < |xs| ==> key(xs[i]) != id
    ensures r.Some? ==>
      exists k :: 0 <= k < |xs| && xs[k] == r.value && key(r.value) == id
        && forall i :: 0 <= i < k ==> key(xs[i]) != id
  {
    if xs == [] then None
    else if key(xs[0]) == id then Some(xs[0])
    else
      var r := FindFirst(xs[1..], key, id);
      if r.Some? then
        var k :| 0 <= k < |xs[1..]| && xs[1..][k] == r.value && key(r.value) == id
          && forall i :: 0 <= i < k ==> key(xs[1..][i]) != id;
        assert xs[k + 1] == r.value;
        r
      else r
  }

  /** `Distinct` lists the elements in the order of their first occurrences. */
  lemma {:induction false} DistinctOrder<T(!new)>(xs: seq<T>, i: nat, j: nat)
    requires i < j < |Distinct(xs)|
    ensures Distinct(xs)[i] in xs && Distinct(xs)[j] in xs
    ensures FirstIndex(xs, Distinct(xs)[i]) < FirstIndex(xs, Distinct(xs)[j])
  {
    var d := Distinct(xs);
    assert d[i] in d && d[j] in d;
    var init := xs[..|xs| - 1];
    var x := xs[|xs| - 1];
    assert xs == init + [x];
    var d' := Distinct(init);
    DistinctSnoc(init, x);
    if j < |d'| {
      assert d[i] == d'[i] && d[j] == d'[j];
      DistinctOrder(init, i, j);
      FirstIndexSnoc(init, x, d'[i]);
      FirstIndexSnoc(init, x, d'[j]);
    } else {
      assert x !in d' && d[j] == x && d[i] == d'[i];
      assert d'[i] in d';
      FirstIndexSnoc(init, x, d'[i]);
      assert (init + [x])[|init|] == x;
      assert FirstIndex(xs, x) == |init|;
    }
  }

  /** `xs.filter(p)`: the elements satisfying `p`, in order, each as often as in `xs`. */
  function Filter<T(==,!new)>(xs: seq<T>, p: T -> bool): (r: seq<T>)
    ensures |r| <= |xs|
    ensures forall i :: 0 <= i < |r| ==> p(r[i])
  {
    if xs == [] then []
    else
      var init := xs[..|xs| - 1];
      var x := xs[|xs| - 1];
      assert xs == init + [x];
      var kept := Filter(init, p);
      if p(x) then kept + [x] else kept
  }

  /** Each element is kept exactly as often as it occurs when it satisfies `p`, and not at all
      otherwise. */
  lemma {:induction false} FilterElements<T(!new)>(xs: seq<T>, p: T -> bool)
    ensures forall x :: multiset(Filter(xs, p))[x] == if p(x) then multiset(xs)[x] else 0
  {
    if xs != [] {
      var init := xs[..|xs| - 1];
      FilterElements(init, p);
      assert xs == init + [xs[|xs| - 1]];
    }
  }

  /** Filtering keeps the order: it distributes over concatenation. */
  lemma {:induction false} FilterAppend<T(!new)>(a: seq<T>, b: seq<T>, p: T -> bool)
    ensures Filter(a + b, p) == Filter(a, p) + Filter(b, p)
  {
    if b != [] {
      var b' := b[..|b| - 1];
      FilterAppend(a, b', p);
      assert (a + b)[..|a + b| - 1] == a + b';
      assert (a + b)[|a + b| - 1] == b[|b| - 1];
    } else {
      assert a + b == a;
    }
  }

  /** Replacing one element changes the number of kept elements by what the old and the new
      element contribute. */
  lemma {:induction false} FilterUpdate<T(!new)>(xs: seq<T>, k: nat, v: T, p: T -> bool)
    requires k < |xs|
    ensures |Filter(xs[k := v], p)|
         == |Filter(xs, p)| - (if p(xs[k]) then 1 else 0) + (if p(v) then 1 else 0)
  {
    var n := |xs| - 1;
    var ys := xs[k := v];
    var a, b := Filter(xs[..n], p), Filter(ys[..n], p);
    assert |Filter(xs, p)| == |a| + (if p(xs[n]) then 1 else 0);
    assert |Filter(ys, p)| == |b| + (if p(ys[n]) then 1 else 0);
    if k < n {
      FilterUpdate(xs[..n], k, v, p);
      assert ys[..n] == xs[..n][k := v];
    } else {
      assert ys[..n] == xs[..n];
    }
  }

  /** `xs.slice(0, n)`: the first n elements, or all of them when there are fewer. */
  function Slice<T>(xs: seq<T>, n: nat): (r: seq<T>)
    ensures |r| == if |xs| < n then |xs| else n
    ensures r == xs[..|r|]
  {
    if |xs| < n then xs else xs[..n]
  }

  /** Taking every element of a sequence gives the sequence. */
  lemma WholePrefix<T>(xs: seq<T>)
    ensures xs[..|xs|] == xs
  {
  }

  /** A prefix one longer is the shorter prefix and the next element. */
  lemma PrefixSnoc<T>(xs: seq<T>, i: nat)
    requires i < |xs|
    ensures xs[..i + 1] == xs[..i] + [xs[i]]
  {
  }
}
