/** The Cartesian product behind the option/variant matrix (getCombinations in
    cms-server/src/core/products/product.service.ts). The source folds the
    input lists from the left, starting from the single empty combination, and
    at each step extends every partial combination, in order, by every element
    of the next list, in order. */
module Combinations {

  /** The partial combination `c` extended by each element of `list`, in order. */
  function Extended<T>(c: seq<T>, list: seq<T>): (r: seq<seq<T>>)
    ensures |r| == |list|
    ensures forall i :: 0 <= i < |list| ==> r[i] == c + [list[i]]
  {
    seq(|list|, i requires 0 <= i < |list| => c + [list[i]])
  }

  /** One step of the outer reduce: the inner reduce concatenates, for every
      partial combination in order, its extensions by `list`. */
  function Extend<T>(result: seq<seq<T>>, list: seq<T>): seq<seq<T>>
  {
    if result == [] then [] else Extended(result[0], list) + Extend(result[1..], list)
  }

  /** The outer reduce, from the accumulator `acc`. */
  function Fold<T>(acc: seq<seq<T>>, lists: seq<seq<T>>): seq<seq<T>>
    decreases |lists|
  {
    if lists == [] then acc else Fold(Extend(acc, lists[0]), lists[1..])
  }

  /** getCombinations: the reduce starts from [[]]. */
  function Combinations<T>(lists: seq<seq<T>>): seq<seq<T>>
  {
    Fold([[]], lists)
  }

  /** The product of the list lengths (1 for no lists). */
  function LengthProduct<T>(lists: seq<seq<T>>): nat
  {
    if lists == [] then 1 else |lists[0]| * LengthProduct(lists[1..])
  }

  /** True when a sequence holds no element twice. */
  predicate NoDuplicates<T(==)>(s: seq<T>)
  {
    forall i, j :: 0 <= i < j < |s| ==> s[i] != s[j]
  }

  /** True when `c` picks, position by position, one element of each list. */
  predicate IsChoice<T(==)>(c: seq<T>, lists: seq<seq<T>>)
  {
    |c| == |lists| && forall i :: 0 <= i < |c| ==> c[i] in lists[i]
  }

  lemma {:induction false} ExtendLength<T>(result: seq<seq<T>>, list: seq<T>)
    ensures |Extend(result, list)| == |result| * |list|
  {
    if result != [] {
      ExtendLength(result[1..], list);
      assert |result| * |list| == |list| + (|result| - 1) * |list|;
    }
  }

  lemma {:induction false} ExtendMember<T>(result: seq<seq<T>>, list: seq<T>, x: seq<T>)
    ensures x in Extend(result, list) <==> |x| >= 1 && x[..|x| - 1] in result && x[|x| - 1] in list
  {
    if result != [] {
      ExtendMember(result[1..], list, x);
      var e := Extended(result[0], list);
      if x in e {
        var i :| 0 <= i < |e| && e[i] == x;
        assert x[..|x| - 1] == result[0];
      }
      if |x| >= 1 && x[..|x| - 1] == result[0] && x[|x| - 1] in list {
        var i :| 0 <= i < |list| && list[i] == x[|x| - 1];
        assert x == result[0] + [list[i]];
        assert e[i] == x;
      }
      if |x| >= 1 {
        assert x[..|x| - 1] in result <==> x[..|x| - 1] == result[0] || x[..|x| - 1] in result[1..];
      }
    }
  }

  lemma {:induction false} ExtendNoDuplicates<T>(result: seq<seq<T>>, list: seq<T>)
    requires NoDuplicates(result) && NoDuplicates(list)
    ensures NoDuplicates(Extend(result, list))
  {
    if result != [] {
      var e := Extended(result[0], list);
      var rest := Extend(result[1..], list);
      assert NoDuplicates(result[1..]) by {
        forall i, j | 0 <= i < j < |result[1..]| ensures result[1..][i] != result[1..][j] {
          assert result[1..][i] == result[i + 1] && result[1..][j] == result[j + 1];
        }
      }
      ExtendNoDuplicates(result[1..], list);
      assert NoDuplicates(e) by {
        forall i, j | 0 <= i < j < |e| ensures e[i] != e[j] {
          assert e[i][|e[i]| - 1] == list[i] && e[j][|e[j]| - 1] == list[j];
        }
      }
      forall k | 0 <= k < |result[1..]| ensures result[1..][k] != result[0] {
        assert result[1..][k] == result[k + 1];
      }
      assert result[0] !in result[1..];
      forall i, j | 0 <= i < |e| && 0 <= j < |rest| ensures e[i] != rest[j] {
        ExtendMember(result[1..], list, rest[j]);
        assert rest[j] in rest;
        var x := rest[j];
        assert x[..|x| - 1] in result[1..];
        assert e[i][..|e[i]| - 1] == result[0];
      }
      var r := e + rest;
      forall i, j | 0 <= i < j < |r| ensures r[i] != r[j] {
        if j < |e| {
        } else if i >= |e| {
          assert r[i] == rest[i - |e|] && r[j] == rest[j - |e|];
        } else {
          assert r[i] == e[i] && r[j] == rest[j - |e|];
        }
      }
    }
  }

  /** Folding one more list extends the previous result: the combinations for
      `lists + [a]` are, in order, each combination for `lists` followed by
      each element of `a` in turn. */
  lemma {:induction false} FoldSnoc<T>(acc: seq<seq<T>>, lists: seq<seq<T>>, a: seq<T>)
    ensures Fold(acc, lists + [a]) == Extend(Fold(acc, lists), a)
    decreases |lists|
  {
    if lists == [] {
      assert lists + [a] == [a];
      assert [a][1..] == [];
    } else {
      assert (lists + [a])[0] == lists[0];
      assert (lists + [a])[1..] == lists[1..] + [a];
      FoldSnoc(Extend(acc, lists[0]), lists[1..], a);
    }
  }

  /** Order of getCombinations: one more input list extends every earlier
      combination, in order, by every element of that list, in order. */
  lemma CombinationsSnoc<T>(lists: seq<seq<T>>, a: seq<T>)
    ensures Combinations(lists + [a]) == Extend(Combinations(lists), a)
  {
    FoldSnoc([[]], lists, a);
  }

  lemma {:induction false} FoldLength<T>(acc: seq<seq<T>>, lists: seq<seq<T>>)
    ensures |Fold(acc, lists)| == |acc| * LengthProduct(lists)
    decreases |lists|
  {
    if lists != [] {
      ExtendLength(acc, lists[0]);
      FoldLength(Extend(acc, lists[0]), lists[1..]);
      assert |acc| * |lists[0]| * LengthProduct(lists[1..]) == |acc| * (|lists[0]| * LengthProduct(lists[1..]));
    }
  }

  /** getCombinations yields the product of the list lengths many combinations;
      no lists yield exactly the empty combination, and an empty list anywhere
      yields none. */
  lemma CombinationsCount<T>(lists: seq<seq<T>>)
    ensures |Combinations(lists)| == LengthProduct(lists)
    ensures lists == [] ==> Combinations(lists) == [[]]
    ensures (exists i :: 0 <= i < |lists| && lists[i] == []) ==> Combinations(lists) == []
  {
    FoldLength([[]], lists);
    if exists i :: 0 <= i < |lists| && lists[i] == [] {
      var i :| 0 <= i < |lists| && lists[i] == [];
      ProductWithEmpty(lists, i);
    }
  }

  lemma {:induction false} ProductWithEmpty<T>(lists: seq<seq<T>>, i: nat)
    requires i < |lists| && lists[i] == []
    ensures LengthProduct(lists) == 0
  {
    if i > 0 {
      assert lists[1..][i - 1] == [];
      ProductWithEmpty(lists[1..], i - 1);
    }
  }

  lemma {:induction false} FoldMember<T>(acc: seq<seq<T>>, lists: seq<seq<T>>, x: seq<T>)
    ensures x in Fold(acc, lists) <==>
      |x| >= |lists| && x[..|x| - |lists|] in acc && IsChoice(x[|x| - |lists|..], lists)
    decreases |lists|
  {
    if lists == [] {
      assert x[..|x|] == x;
    } else {
      var acc' := Extend(acc, lists[0]);
      FoldMember(acc', lists[1..], x);
      var n := |lists|;
      if |x| >= n {
        var y := x[..|x| - (n - 1)];
        ExtendMember(acc, lists[0], y);
        assert y[..|y| - 1] == x[..|x| - n];
        assert y[|y| - 1] == x[|x| - n];
        var tail := x[|x| - n..];
        assert x[|x| - (n - 1)..] == tail[1..];
        assert IsChoice(tail, lists) <==> tail[0] in lists[0] && IsChoice(tail[1..], lists[1..]) by {
          if tail[0] in lists[0] && IsChoice(tail[1..], lists[1..]) {
            forall i | 0 <= i < |tail| ensures tail[i] in lists[i] {
              if i > 0 { assert tail[1..][i - 1] == tail[i]; }
            }
          }
          if IsChoice(tail, lists) {
            forall i | 0 <= i < |tail[1..]| ensures tail[1..][i] in lists[1..][i] {
              assert tail[1..][i] == tail[i + 1];
            }
          }
        }
      } else if |x| >= n - 1 {
        var y := x[..|x| - (n - 1)];
        ExtendMember(acc, lists[0], y);
      }
    }
  }

  /** A sequence is one of getCombinations' results exactly when it picks one
      element from each input list, position by position. */
  lemma CombinationsMember<T>(lists: seq<seq<T>>, x: seq<T>)
    ensures x in Combinations(lists) <==> IsChoice(x, lists)
  {
    FoldMember([[]], lists, x);
    assert x[..0] == [] && x[0..] == x;
    if |x| >= |lists| && x[..|x| - |lists|] in [[]] {
      assert |x| == |lists|;
    }
  }

  lemma {:induction false} FoldNoDuplicates<T>(acc: seq<seq<T>>, lists: seq<seq<T>>)
    requires NoDuplicates(acc)
    requires forall i :: 0 <= i < |lists| ==> NoDuplicates(lists[i])
    ensures NoDuplicates(Fold(acc, lists))
    decreases |lists|
  {
    if lists != [] {
      ExtendNoDuplicates(acc, lists[0]);
      forall i | 0 <= i < |lists[1..]| ensures NoDuplicates(lists[1..][i]) {
        assert lists[1..][i] == lists[i + 1];
      }
      FoldNoDuplicates(Extend(acc, lists[0]), lists[1..]);
    }
  }

  /** When no input list repeats an element, no combination is produced twice. */
  lemma CombinationsNoDuplicates<T>(lists: seq<seq<T>>)
    requires forall i :: 0 <= i < |lists| ==> NoDuplicates(lists[i])
    ensures NoDuplicates(Combinations(lists))
  {
    FoldNoDuplicates([[]], lists);
  }
}
