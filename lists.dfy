/** The array combinators the client code is written with: `filter` and `map`,
    and the permutation facts the drag handlers rely on. */
module Lists {
  import opened Wrappers

  /** `s.filter(keep)`: the elements of `s` that satisfy `keep`, in order;
      each kept value as often as it occurs in `s` (`FilterCounts`), at the
      kept positions in order (`FilterSelects`). */
  function Filter<T(!new)>(s: seq<T>, keep: T -> bool): (r: seq<T>)
    ensures |r| <= |s|
    ensures forall x :: x in r <==> x in s && keep(x)
  {
    if s == [] then []
    else
      assert s == [s[0]] + s[1..];
      (if keep(s[0]) then [s[0]] else []) + Filter(s[1..], keep)
  }

  /** `Filter` keeps every occurrence of a kept value and none of a dropped
      one. */
  lemma {:induction false} FilterCounts<T(!new)>(s: seq<T>, keep: T -> bool)
    ensures forall x :: multiset(Filter(s, keep))[x] == if keep(x) then multiset(s)[x] else 0
  {
    if s != [] {
      assert s == [s[0]] + s[1..];
      FilterCounts(s[1..], keep);
    }
  }

  /** Strictly increasing positions. */
  ghost predicate Increasing(idx: seq<nat>)
  {
    forall i, j :: 0 <= i < j < |idx| ==> idx[i] < idx[j]
  }

  /** Every position moved one place to the right. */
  ghost function Shifted(idx: seq<nat>): (r: seq<nat>)
    ensures |r| == |idx|
    ensures forall i :: 0 <= i < |idx| ==> r[i] == idx[i] + 1
  {
    seq(|idx|, i requires 0 <= i < |idx| => idx[i] + 1)
  }

  /** The positions of `s` whose element satisfies `keep`, in increasing
      order. */
  ghost function KeptPositions<T>(s: seq<T>, keep: T -> bool): (r: seq<nat>)
    ensures Increasing(r)
    ensures forall k: nat :: k in r <==> k < |s| && keep(s[k])
  {
    if s == [] then []
    else
      var rest := KeptPositions(s[1..], keep);
      var shifted := Shifted(rest);
      assert forall k: nat :: k in shifted <==> 1 <= k && k - 1 in rest by {
        forall k: nat | 1 <= k && k - 1 in rest
          ensures k in shifted
        {
          var i :| 0 <= i < |rest| && rest[i] == k - 1;
          assert shifted[i] == k;
        }
      }
      (if keep(s[0]) then [0] else []) + shifted
  }

  /** One step of `FilterSelects`: when `tail` is `s[1..]` read at `rest`,
      prefixing the head (or not) gives `s` read at the shifted positions. */
  lemma SelectsCons<T>(s: seq<T>, kept: bool, tail: seq<T>, rest: seq<nat>)
    requires s != [] && |tail| == |rest|
    requires forall i :: 0 <= i < |rest| ==> rest[i] < |s| - 1 && tail[i] == s[1..][rest[i]]
    ensures var r, idx := (if kept then [s[0]] else []) + tail, (if kept then [0] else []) + Shifted(rest);
      && |r| == |idx|
      && forall i :: 0 <= i < |idx| ==> idx[i] < |s| && r[i] == s[idx[i]]
  {
    var r, idx := (if kept then [s[0]] else []) + tail, (if kept then [0] else []) + Shifted(rest);
    var d := if kept then 1 else 0;
    forall i | d <= i < |idx|
      ensures idx[i] < |s| && r[i] == s[idx[i]]
    {
      assert idx[i] == rest[i - d] + 1;
      assert r[i] == tail[i - d];
    }
  }

  /** `Filter` keeps exactly the elements at `KeptPositions`, in that order:
      the result is the subsequence of `s` made of the kept positions. */
  lemma {:induction false} FilterSelects<T(!new)>(s: seq<T>, keep: T -> bool)
    ensures var idx := KeptPositions(s, keep);
      && |Filter(s, keep)| == |idx|
      && forall i :: 0 <= i < |idx| ==> idx[i] < |s| && Filter(s, keep)[i] == s[idx[i]]
  {
    if s != [] {
      FilterSelects(s[1..], keep);
      SelectsCons(s, keep(s[0]), Filter(s[1..], keep), KeptPositions(s[1..], keep));
    }
  }

  /** `filter` returns the empty list exactly when no element is kept. */
  lemma FilterEmpty<T(!new)>(s: seq<T>, keep: T -> bool)
    ensures Filter(s, keep) == [] <==> forall x :: x in s ==> !keep(x)
  {
    if Filter(s, keep) != [] {
      assert Filter(s, keep)[0] in Filter(s, keep);
    }
  }

  /** Filtering out an element of the list shortens it. */
  lemma {:induction false} FilterShorter<T(!new)>(s: seq<T>, keep: T -> bool, x: T)
    requires x in s && !keep(x)
    ensures |Filter(s, keep)| < |s|
  {
    if s[0] != x {
      assert x in s[1..];
      FilterShorter(s[1..], keep, x);
    }
  }

  /** `s.map(f)`. */
  function Map<A, B>(f: A -> B, s: seq<A>): (r: seq<B>)
    ensures |r| == |s|
    ensures forall i :: 0 <= i < |s| ==> r[i] == f(s[i])
  {
    seq(|s|, i requires 0 <= i < |s| => f(s[i]))
  }

  /** `s.length !== 0 ? s : undefined`. */
  function NonEmpty<T>(s: seq<T>): (r: Option<seq<T>>)
    ensures r.Some? <==> s != []
    ensures r.Some? ==> r.value == s
  {
    if |s| != 0 then Some(s) else None
  }

  /** Mapping the same function over two permutations of one list gives two
      permutations of one list. */
  lemma {:induction false} MapPermutation<A, B>(f: A -> B, a: seq<A>, b: seq<A>)
    requires multiset(a) == multiset(b)
    ensures multiset(Map(f, a)) == multiset(Map(f, b))
  {
    if a == [] {
      assert |multiset(b)| == 0;
      assert b == [];
    } else {
      var x := a[0];
      assert x in multiset(b);
      var k :| 0 <= k < |b| && b[k] == x;
      var rest := b[..k] + b[k + 1..];
      assert a == [x] + a[1..];
      assert b == b[..k] + [x] + b[k + 1..];
      calc {
        multiset(a[1..]);
        multiset(a) - multiset{x};
        multiset(b) - multiset{x};
        multiset(b[..k]) + multiset(b[k + 1..]);
        multiset(rest);
      }
      MapPermutation(f, a[1..], rest);
      MapConcat(f, [x], a[1..]);
      MapConcat(f, b[..k] + [x], b[k + 1..]);
      MapConcat(f, b[..k], [x]);
      MapConcat(f, b[..k], b[k + 1..]);
    }
  }

  lemma MapConcat<A, B>(f: A -> B, a: seq<A>, b: seq<A>)
    ensures Map(f, a + b) == Map(f, a) + Map(f, b)
  {
    assert forall i :: 0 <= i < |a + b| ==> Map(f, a + b)[i] == (Map(f, a) + Map(f, b))[i];
  }

  /** Exchanging two elements keeps the same elements. */
  lemma SwapPermutation<T>(s: seq<T>, i: nat, j: nat)
    requires i < |s| && j < |s|
    ensures multiset(s[i := s[j]][j := s[i]]) == multiset(s)
  {
  }
}
