/** The positional reorder primitive shared by option values, options and
    images (cms-server/src/core/products/product.service.ts and
    cms-server/src/core/variants/variant.service.ts).

    A positioned table is a sequence of rows; the order of the sequence means
    nothing (a database table is a set), only the `position` column does. A
    row's `scope` is the parent it is positioned within (the option of a value,
    the product of an option or image); `None` is a detached row. */
module Reorder {
  import opened Wrappers
  import opened Sorting
  import opened Lists

  type Id = nat

  datatype Row<T> = Row(id: Id, scope: Option<Id>, position: int, data: T)

  predicate InScope<T>(r: Row<T>, scope: Id)
  {
    r.scope == Some(scope)
  }

  function PositionOf<T>(r: Row<T>): int
  {
    r.position
  }

  /** The row with everything but its position. */
  function Unplaced<T>(r: Row<T>): Row<T>
  {
    r.(position := 0)
  }

  function UnplacedAll<T>(rows: seq<Row<T>>): (r: seq<Row<T>>)
    ensures |r| == |rows|
    ensures forall i :: 0 <= i < |rows| ==> r[i] == Unplaced(rows[i])
  {
    seq(|rows|, i requires 0 <= i < |rows| => Unplaced(rows[i]))
  }

  /** `findFirst({ where: { id } })`: the first row with that id. */
  function FindRow<T>(rows: seq<Row<T>>, id: Id): (r: Option<Row<T>>)
    ensures r.Some? <==> exists i :: 0 <= i < |rows| && rows[i].id == id
    ensures r.Some? ==> r.value in rows && r.value.id == id
  {
    if rows == [] then None
    else if rows[0].id == id then Some(rows[0])
    else
      var r := FindRow(rows[1..], id);
      assert forall i :: 1 <= i < |rows| ==> rows[i] == rows[1..][i - 1];
      r
  }

  /** The rows of one scope, in table order (`findMany({ where: { scope } })`). */
  function Inside<T>(rows: seq<Row<T>>, scope: Id): (r: seq<Row<T>>)
    ensures forall i :: 0 <= i < |r| ==> r[i] in rows && InScope(r[i], scope)
    ensures forall i :: 0 <= i < |rows| && InScope(rows[i], scope) ==> rows[i] in r
  {
    if rows == [] then []
    else (if InScope(rows[0], scope) then [rows[0]] else []) + Inside(rows[1..], scope)
  }

  /** The rows of every other scope, in table order. */
  function Outside<T>(rows: seq<Row<T>>, scope: Id): (r: seq<Row<T>>)
    ensures forall i :: 0 <= i < |r| ==> r[i] in rows && !InScope(r[i], scope)
    ensures forall i :: 0 <= i < |rows| && !InScope(rows[i], scope) ==> rows[i] in r
  {
    if rows == [] then []
    else (if InScope(rows[0], scope) then [] else [rows[0]]) + Outside(rows[1..], scope)
  }

  /** No two rows share an id (a primary key). */
  ghost predicate UniqueIds<T>(rows: seq<Row<T>>)
  {
    forall i, j :: 0 <= i < j < |rows| ==> rows[i].id != rows[j].id
  }

  /** No two rows of the scope share a position. */
  ghost predicate DistinctPositions<T>(rows: seq<Row<T>>, scope: Id)
  {
    forall i, j :: 0 <= i < j < |rows| && InScope(rows[i], scope) && InScope(rows[j], scope) ==>
      rows[i].position != rows[j].position
  }

  /** The positions of the scope are distinct and all in 0..n-1, where n is the
      number of rows in the scope, so they are exactly 0..n-1. */
  ghost predicate Dense<T>(rows: seq<Row<T>>, scope: Id)
  {
    && DistinctPositions(rows, scope)
    && forall i :: 0 <= i < |rows| && InScope(rows[i], scope) ==> 0 <= rows[i].position < |Inside(rows, scope)|
  }

  // ---------------------------------------------------------------------
  // Transposition
  // ---------------------------------------------------------------------

  /** The transposition `from` <-> `target` on positions. */
  function Transposition(p: int, from: int, target: int): int
  {
    if p == from then target else if p == target then from else p
  }

  /** One row after the two writes of a move: `updateMany` gives every row of
      the scope at `target` the mover's old position `from`, then `update`
      gives the mover `target`. */
  function MovedRow<T>(r: Row<T>, scope: Id, moverId: Id, from: int, target: int): Row<T>
  {
    var r1 := if InScope(r, scope) && r.position == target then r.(position := from) else r;
    if r1.id == moverId then r1.(position := target) else r1
  }

  function MovedRows<T>(rows: seq<Row<T>>, scope: Id, moverId: Id, from: int, target: int): (r: seq<Row<T>>)
    ensures |r| == |rows|
    ensures forall i :: 0 <= i < |rows| ==> r[i] == MovedRow(rows[i], scope, moverId, from, target)
  {
    seq(|rows|, i requires 0 <= i < |rows| => MovedRow(rows[i], scope, moverId, from, target))
  }

  /** Moving the row `moverId` to `target` within `scope`; `None` when there is
      no such row (the source then reads a position of null and fails). */
  function Move<T>(rows: seq<Row<T>>, scope: Id, moverId: Id, target: int): (r: Option<seq<Row<T>>>)
    ensures r.None? <==> forall i :: 0 <= i < |rows| ==> rows[i].id != moverId
    ensures r.Some? ==> |r.value| == |rows| && forall i :: 0 <= i < |rows| ==> Unplaced(r.value[i]) == Unplaced(rows[i])
  {
    match FindRow(rows, moverId)
    case None => None
    case Some(current) => Some(MovedRows(rows, scope, moverId, current.position, target))
  }

  /** A move is a transposition: when the mover is in the scope, ids are unique
      and no other row of the scope shares the mover's position, every row of
      the scope goes from position p to Transposition(p, from, target), so the
      row at the target takes the mover's old position, the mover takes the
      target, and all other rows keep their position. Rows of other scopes are
      untouched. */
  lemma {:induction false} MoveIsTransposition<T>(rows: seq<Row<T>>, scope: Id, moverId: Id, target: int, k: nat)
    requires UniqueIds(rows) && DistinctPositions(rows, scope)
    requires k < |rows| && rows[k].id == moverId && InScope(rows[k], scope)
    ensures Move(rows, scope, moverId, target).Some?
    ensures var moved := Move(rows, scope, moverId, target).value;
      forall i :: 0 <= i < |rows| ==>
        moved[i] == if InScope(rows[i], scope)
                    then rows[i].(position := Transposition(rows[i].position, rows[k].position, target))
                    else rows[i]
  {
    var current := FindRow(rows, moverId).value;
    var j :| 0 <= j < |rows| && rows[j] == current;
    assert j == k;
    var from := rows[k].position;
    forall i | 0 <= i < |rows|
      ensures MovedRow(rows[i], scope, moverId, from, target) ==
        if InScope(rows[i], scope) then rows[i].(position := Transposition(rows[i].position, from, target)) else rows[i]
    {
      if i != k {
        assert rows[i].id != moverId;
        if InScope(rows[i], scope) {
          assert rows[i].position != from;
        }
      }
    }
  }

  /** When no row of the scope holds the target, only the mover changes. */
  lemma MoveToFreePosition<T>(rows: seq<Row<T>>, scope: Id, moverId: Id, target: int)
    requires forall i :: 0 <= i < |rows| && InScope(rows[i], scope) ==> rows[i].position != target
    ensures Move(rows, scope, moverId, target).Some? ==>
      var moved := Move(rows, scope, moverId, target).value;
      forall i :: 0 <= i < |rows| ==>
        moved[i] == if rows[i].id == moverId then rows[i].(position := target) else rows[i]
  {
  }

  lemma {:induction false} InsideCount<T>(a: seq<Row<T>>, b: seq<Row<T>>, scope: Id)
    requires |a| == |b| && forall i :: 0 <= i < |a| ==> a[i].scope == b[i].scope
    ensures |Inside(a, scope)| == |Inside(b, scope)|
  {
    if a != [] {
      InsideCount(a[1..], b[1..], scope);
    }
  }

  /** Moving a row of the scope to a position the scope already uses keeps the
      scope's positions exactly 0..n-1. */
  lemma MovePreservesDense<T>(rows: seq<Row<T>>, scope: Id, moverId: Id, target: int, k: nat)
    requires UniqueIds(rows) && Dense(rows, scope)
    requires k < |rows| && rows[k].id == moverId && InScope(rows[k], scope)
    requires 0 <= target < |Inside(rows, scope)|
    ensures Move(rows, scope, moverId, target).Some?
    ensures Dense(Move(rows, scope, moverId, target).value, scope)
  {
    MoveIsTransposition(rows, scope, moverId, target, k);
    TransposedDense(rows, Move(rows, scope, moverId, target).value, scope, rows[k].position, target);
  }

  /** Transposing two positions of 0..n-1 in a scope keeps the scope's
      positions 0..n-1. */
  lemma TransposedDense<T>(rows: seq<Row<T>>, moved: seq<Row<T>>, scope: Id, from: int, target: int)
    requires Dense(rows, scope)
    requires 0 <= from < |Inside(rows, scope)| && 0 <= target < |Inside(rows, scope)|
    requires |moved| == |rows|
    requires forall i :: 0 <= i < |rows| ==>
      moved[i] == if InScope(rows[i], scope)
                  then rows[i].(position := Transposition(rows[i].position, from, target))
                  else rows[i]
    ensures Dense(moved, scope)
  {
    InsideCount(moved, rows, scope);
    forall i, j | 0 <= i < j < |moved| && InScope(moved[i], scope) && InScope(moved[j], scope)
      ensures moved[i].position != moved[j].position
    {
      assert rows[i].position != rows[j].position;
    }
  }

  // ---------------------------------------------------------------------
  // Compaction
  // ---------------------------------------------------------------------

  /** The source's renumbering loop: the i-th row gets position i. */
  function Renumbered<T>(s: seq<Row<T>>): (r: seq<Row<T>>)
    ensures |r| == |s|
    ensures forall i :: 0 <= i < |s| ==> r[i] == s[i].(position := i)
  {
    seq(|s|, i requires 0 <= i < |s| => s[i].(position := i))
  }

  /** The scope's rows in `orderBy: { position: 'asc' }` order. */
  function ByPosition<T>(rows: seq<Row<T>>, scope: Id): seq<Row<T>>
  {
    SortBy(Inside(rows, scope), PositionOf)
  }

  /** After a deletion: the scope's rows, read in position order, are renumbered
      0..n-1; rows of other scopes are untouched. */
  function Compacted<T>(rows: seq<Row<T>>, scope: Id): (r: seq<Row<T>>)
    ensures |r| == |rows|
    ensures forall i :: 0 <= i < |rows| && !InScope(rows[i], scope) ==> rows[i] in r
    ensures forall i :: 0 <= i < |r| && !InScope(r[i], scope) ==> r[i] in rows
  {
    InsideOutsideLength(rows, scope);
    ByPositionInScope(rows, scope);
    Outside(rows, scope) + Renumbered(ByPosition(rows, scope))
  }

  lemma InsideOutsideLength<T>(rows: seq<Row<T>>, scope: Id)
    ensures |Inside(rows, scope)| + |Outside(rows, scope)| == |rows|
  {
    InsideOutsideSplit(rows, scope);
    assert |multiset(Inside(rows, scope)) + multiset(Outside(rows, scope))| == |multiset(rows)|;
  }

  lemma ByPositionInScope<T>(rows: seq<Row<T>>, scope: Id)
    ensures |ByPosition(rows, scope)| == |Inside(rows, scope)|
    ensures forall i :: 0 <= i < |ByPosition(rows, scope)| ==> InScope(ByPosition(rows, scope)[i], scope)
  {
    var sorted := ByPosition(rows, scope);
    forall i | 0 <= i < |sorted| ensures InScope(sorted[i], scope) {
      assert sorted[i] in multiset(Inside(rows, scope));
    }
  }

  lemma {:induction false} InsideOutsideSplit<T>(rows: seq<Row<T>>, scope: Id)
    ensures multiset(Inside(rows, scope)) + multiset(Outside(rows, scope)) == multiset(rows)
  {
    if rows != [] {
      InsideOutsideSplit(rows[1..], scope);
      assert rows == [rows[0]] + rows[1..];
    }
  }

  lemma {:induction false} UnplacedConcat<T>(a: seq<Row<T>>, b: seq<Row<T>>)
    ensures UnplacedAll(a + b) == UnplacedAll(a) + UnplacedAll(b)
  {
  }

  lemma UnplacedPermutation<T>(a: seq<Row<T>>, b: seq<Row<T>>)
    requires multiset(a) == multiset(b)
    ensures multiset(UnplacedAll(a)) == multiset(UnplacedAll(b))
  {
    assert UnplacedAll(a) == Map(Unplaced, a);
    assert UnplacedAll(b) == Map(Unplaced, b);
    MapPermutation(Unplaced, a, b);
  }

  lemma {:induction false} InsideAllInScope<T>(x: seq<Row<T>>, scope: Id)
    requires forall i :: 0 <= i < |x| ==> InScope(x[i], scope)
    ensures Inside(x, scope) == x
  {
    if x != [] {
      InsideAllInScope(x[1..], scope);
      assert x == [x[0]] + x[1..];
    }
  }

  lemma {:induction false} InsideConcat<T>(a: seq<Row<T>>, b: seq<Row<T>>, scope: Id)
    ensures Inside(a + b, scope) == Inside(a, scope) + Inside(b, scope)
  {
    if a == [] {
      assert a + b == b;
    } else {
      assert (a + b)[0] == a[0];
      assert (a + b)[1..] == a[1..] + b;
      InsideConcat(a[1..], b, scope);
    }
  }

  lemma {:induction false} InsideOfOutside<T>(rows: seq<Row<T>>, scope: Id)
    ensures Inside(Outside(rows, scope), scope) == []
  {
    if rows != [] {
      InsideOfOutside(rows[1..], scope);
      InsideConcat(if InScope(rows[0], scope) then [] else [rows[0]], Outside(rows[1..], scope), scope);
    }
  }

  /** Compaction is a permutation of the table that changes positions only:
      every row survives with the same id, scope and data. */
  lemma CompactedIsPermutation<T>(rows: seq<Row<T>>, scope: Id)
    ensures multiset(UnplacedAll(Compacted(rows, scope))) == multiset(UnplacedAll(rows))
  {
    var sorted := ByPosition(rows, scope);
    var out := Outside(rows, scope);
    assert UnplacedAll(Renumbered(sorted)) == UnplacedAll(sorted);
    UnplacedConcat(out, Renumbered(sorted));
    UnplacedPermutation(sorted, Inside(rows, scope));
    InsideOutsideSplit(rows, scope);
    UnplacedConcat(Inside(rows, scope), out);
    UnplacedPermutation(Inside(rows, scope) + out, rows);
  }

  /** The scope's rows in position order are a permutation of the scope's
      rows, all in the scope. */
  lemma ByPositionMembers<T>(rows: seq<Row<T>>, scope: Id)
    ensures var sorted := ByPosition(rows, scope);
      && multiset(sorted) == multiset(Inside(rows, scope))
      && (forall i :: 0 <= i < |sorted| ==> InScope(sorted[i], scope))
  {
    var sorted := ByPosition(rows, scope);
    forall i | 0 <= i < |sorted| ensures InScope(sorted[i], scope) {
      assert sorted[i] in multiset(Inside(rows, scope));
    }
  }

  /** In position order a row with a smaller position comes earlier. */
  lemma ByPositionOrdered<T>(sorted: seq<Row<T>>)
    requires SortedBy(sorted, PositionOf)
    ensures forall i, j :: 0 <= i < |sorted| && 0 <= j < |sorted| && sorted[i].position < sorted[j].position ==> i < j
  {
    forall i, j | 0 <= i < |sorted| && 0 <= j < |sorted| && sorted[i].position < sorted[j].position
      ensures i < j
    {
      assert j < i ==> PositionOf(sorted[j]) <= PositionOf(sorted[i]);
    }
  }

  /** After compaction the scope holds exactly the scope's old rows, read in
      ascending order of their old positions, with the i-th of them at position
      i; so the positions are 0..n-1 and a row with a smaller old position gets
      a smaller new one. */
  lemma CompactedOrder<T>(rows: seq<Row<T>>, scope: Id)
    ensures var sorted := ByPosition(rows, scope);
      && multiset(sorted) == multiset(Inside(rows, scope))
      && Inside(Compacted(rows, scope), scope) == Renumbered(sorted)
      && (forall i, j :: 0 <= i < |sorted| && 0 <= j < |sorted| && sorted[i].position < sorted[j].position ==> i < j)
  {
    var sorted := ByPosition(rows, scope);
    ByPositionMembers(rows, scope);
    ByPositionOrdered(sorted);
    InsideConcat(Outside(rows, scope), Renumbered(sorted), scope);
    InsideOfOutside(rows, scope);
    InsideAllInScope(Renumbered(sorted), scope);
  }

  /** Compaction leaves the scope dense. */
  lemma CompactedIsDense<T>(rows: seq<Row<T>>, scope: Id)
    ensures Dense(Compacted(rows, scope), scope)
  {
    var sorted := ByPosition(rows, scope);
    var out := Outside(rows, scope);
    var c := Compacted(rows, scope);
    CompactedOrder(rows, scope);
    var n := |sorted|;
    assert |Inside(c, scope)| == n;
    forall i | 0 <= i < |c| && InScope(c[i], scope) ensures |out| <= i && c[i].position == i - |out| {
    }
  }

  // ---------------------------------------------------------------------
  // Appending
  // ---------------------------------------------------------------------

  /** `findFirst({ where: { scope }, orderBy: { position: 'desc' } })?.position`:
      the highest position in the scope, `None` for an empty scope. */
  function LastPosition<T>(rows: seq<Row<T>>, scope: Id): (r: Option<int>)
    ensures r.None? <==> forall i :: 0 <= i < |rows| ==> !InScope(rows[i], scope)
    ensures r.Some? ==> exists i :: 0 <= i < |rows| && InScope(rows[i], scope) && rows[i].position == r.value
    ensures r.Some? ==> forall i :: 0 <= i < |rows| && InScope(rows[i], scope) ==> rows[i].position <= r.value
  {
    if rows == [] then None
    else
      var rest := LastPosition(rows[1..], scope);
      assert forall i :: 1 <= i < |rows| ==> rows[i] == rows[1..][i - 1];
      if !InScope(rows[0], scope) then rest
      else if rest.None? || rest.value < rows[0].position then Some(rows[0].position)
      else rest
  }

  /** The first position of an append: one past the last, or 0. */
  function StartPosition<T>(rows: seq<Row<T>>, scope: Id): int
  {
    match LastPosition(rows, scope)
    case None => 0
    case Some(p) => p + 1
  }

  /** `createMany` of new rows in the scope: the i-th gets id `startId + i`
      and position `StartPosition + i`. */
  function Appended<T>(rows: seq<Row<T>>, scope: Id, startId: Id, data: seq<T>): (r: seq<Row<T>>)
    ensures |r| == |rows| + |data|
    ensures r[..|rows|] == rows
    ensures forall i :: 0 <= i < |data| ==>
      r[|rows| + i] == Row(startId + i, Some(scope), StartPosition(rows, scope) + i, data[i])
  {
    var start := StartPosition(rows, scope);
    rows + seq(|data|, i requires 0 <= i < |data| => Row(startId + i, Some(scope), start + i, data[i]))
  }

  /** Appended rows come after every row of the scope, in request order, so
      the scope's positions stay distinct; an empty scope starts at 0. */
  lemma AppendedPositions<T>(rows: seq<Row<T>>, scope: Id, startId: Id, data: seq<T>)
    ensures var r := Appended(rows, scope, startId, data);
      && (forall i, j :: 0 <= i < |rows| && |rows| <= j < |r| && InScope(rows[i], scope) ==> rows[i].position < r[j].position)
      && (Inside(rows, scope) == [] && data != [] ==> r[|rows|].position == 0)
    ensures DistinctPositions(rows, scope) ==> DistinctPositions(Appended(rows, scope, startId, data), scope)
  {
    var r := Appended(rows, scope, startId, data);
    if DistinctPositions(rows, scope) {
      forall i, j | 0 <= i < j < |r| && InScope(r[i], scope) && InScope(r[j], scope)
        ensures r[i].position != r[j].position
      {
        if j < |rows| {
          assert r[i] == rows[i] && r[j] == rows[j];
        } else if i < |rows| {
          assert r[i] == rows[i];
        }
      }
    }
  }

  // ---------------------------------------------------------------------
  // In-place versions of the two primitives
  // ---------------------------------------------------------------------

  /** The renumbering `for` loop, run over the rows as the query returned them. */
  method RenumberInPlace<T>(a: array<Row<T>>)
    modifies a
    ensures a[..] == Renumbered(old(a[..]))
  {
    for i := 0 to a.Length
      invariant forall k :: 0 <= k < i ==> a[k] == old(a[k]).(position := k)
      invariant forall k :: i <= k < a.Length ==> a[k] == old(a[k])
    {
      a[i] := a[i].(position := i);
    }
  }

  /** Compaction as the source runs it: read the scope's rows in position
      order, renumber them one by one, and put them back beside the rows of
      other scopes. */
  method CompactRows<T>(rows: seq<Row<T>>, scope: Id) returns (r: seq<Row<T>>)
    ensures r == Compacted(rows, scope)
  {
    var sorted := ByPosition(rows, scope);
    var a := new Row<T>[|sorted|](i requires 0 <= i < |sorted| => sorted[i]);
    RenumberInPlace(a);
    r := Outside(rows, scope) + a[..];
  }

  /** The index of the first row with the id, or the array's length. */
  method FirstWithId<T>(a: array<Row<T>>, id: Id) returns (k: nat)
    ensures k <= a.Length
    ensures forall i :: 0 <= i < k ==> a[i].id != id
    ensures k < a.Length ==> a[k].id == id
  {
    k := 0;
    while k < a.Length && a[k].id != id
      invariant k <= a.Length
      invariant forall i :: 0 <= i < k ==> a[i].id != id
    {
      k := k + 1;
    }
  }

  /** The `updateMany` of a move: every row of the scope at `target` takes
      the position `from`. */
  method GiveUpTarget<T>(a: array<Row<T>>, scope: Id, from: int, target: int)
    modifies a
    ensures forall j :: 0 <= j < a.Length ==>
      a[j] == (if InScope(old(a[j]), scope) && old(a[j]).position == target then old(a[j]).(position := from) else old(a[j]))
  {
    for i := 0 to a.Length
      invariant forall j :: 0 <= j < i ==>
        a[j] == (if InScope(old(a[j]), scope) && old(a[j]).position == target then old(a[j]).(position := from) else old(a[j]))
      invariant forall j :: i <= j < a.Length ==> a[j] == old(a[j])
    {
      if InScope(a[i], scope) && a[i].position == target {
        a[i] := a[i].(position := from);
      }
    }
  }

  /** A move on a table held in an array: find the mover, rewrite the rows of
      the scope at the target, then the mover. */
  method MoveInPlace<T>(a: array<Row<T>>, scope: Id, moverId: Id, target: int) returns (found: bool)
    modifies a
    ensures found <==> Move(old(a[..]), scope, moverId, target).Some?
    ensures found ==> a[..] == Move(old(a[..]), scope, moverId, target).value
    ensures !found ==> a[..] == old(a[..])
  {
    var k := FirstWithId(a, moverId);
    if k == a.Length {
      return false;
    }
    assert FindRow(a[..], moverId) == Some(a[k]) by {
      FindFirst(a[..], moverId, k);
    }
    var from := a[k].position;
    GiveUpTarget(a, scope, from, target);
    for i := 0 to a.Length
      invariant forall j :: 0 <= j < i ==> a[j] == MovedRow(old(a[j]), scope, moverId, from, target)
      invariant forall j :: i <= j < a.Length ==>
        a[j] == (if InScope(old(a[j]), scope) && old(a[j]).position == target then old(a[j]).(position := from) else old(a[j]))
    {
      if a[i].id == moverId {
        a[i] := a[i].(position := target);
      }
    }
    assert a[..] == MovedRows(old(a[..]), scope, moverId, from, target);
    return true;
  }

  /** A move on a table read into an array and written back; `None` when
      the mover is missing. */
  method MoveRows<T>(rows: seq<Row<T>>, scope: Id, moverId: Id, target: int) returns (r: Option<seq<Row<T>>>)
    ensures r == Move(rows, scope, moverId, target)
  {
    var a := new Row<T>[|rows|](i requires 0 <= i < |rows| => rows[i]);
    assert a[..] == rows;
    var found := MoveInPlace(a, scope, moverId, target);
    if found {
      r := Some(a[..]);
    } else {
      r := None;
    }
  }

  lemma {:induction false} FindFirst<T>(rows: seq<Row<T>>, id: Id, k: nat)
    requires k < |rows| && rows[k].id == id
    requires forall i :: 0 <= i < k ==> rows[i].id != id
    ensures FindRow(rows, id) == Some(rows[k])
  {
    if k > 0 {
      FindFirst(rows[1..], id, k - 1);
    }
  }
}
