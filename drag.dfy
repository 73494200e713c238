/** Entries of the client's editable lists (product features and the values of
    one feature) and the drag-over handler both lists share: sort by position,
    exchange the dragged entry with the hovered one, renumber 0..n-1. */
module Dragging {
  import opened Wrappers
  import opened Sorting
  import opened Lists

  /** A list entry. `id` is the server's integer id, or a random fraction for
      an entry created in the browser and not saved yet. */
  datatype Entry<T> = Entry(id: real, position: int, data: T)

  /** `isNewId`: the id's decimal rendering has a fractional part. */
  predicate IsNewId(id: real)
  {
    id.Floor as real != id
  }

  function PositionOf<T>(e: Entry<T>): int
  {
    e.position
  }

  /** An entry with its position forgotten: what a permutation preserves. */
  function Unplaced<T>(e: Entry<T>): Entry<T>
  {
    e.(position := 0)
  }

  function Ids<T>(s: seq<Entry<T>>): (r: seq<real>)
    ensures |r| == |s|
    ensures forall i :: 0 <= i < |s| ==> r[i] == s[i].id
  {
    Map((e: Entry<T>) => e.id, s)
  }

  /** `s.some(c => c.id === id)`. */
  predicate HasId<T>(s: seq<Entry<T>>, id: real)
  {
    exists i :: 0 <= i < |s| && s[i].id == id
  }

  ghost predicate UniqueIds<T>(s: seq<Entry<T>>)
  {
    forall i, j :: 0 <= i < j < |s| ==> s[i].id != s[j].id
  }

  /** What lands at rank `i` of the sorted list in place of `current`: the
      dragged entry where the hovered one was, the hovered entry where the
      dragged one was, anything else as it was. */
  function SwappedAt<T>(current: Entry<T>, i: int, dragged: Entry<T>, hovered: Entry<T>): Entry<T>
  {
    if current.id == hovered.id then dragged.(position := i)
    else if current.id == dragged.id then hovered.(position := i)
    else current.(position := i)
  }

  /** `onDragOver(e, item)` with `selected` the entry being dragged, if any.
      `None` means the handler returns without touching the list. */
  function DragOver<T>(items: seq<Entry<T>>, selected: Option<Entry<T>>, hovered: Entry<T>): (r: Option<seq<Entry<T>>>)
    ensures r.None? <==> selected.None? || hovered.id == selected.value.id || IsNewId(hovered.id)
    ensures r.Some? ==> |r.value| == |items|
    ensures r.Some? ==> forall i :: 0 <= i < |r.value| ==> r.value[i].position == i
  {
    if selected.None? || hovered.id == selected.value.id || IsNewId(hovered.id) then None
    else
      var sorted := SortBy(items, PositionOf);
      Some(seq(|sorted|, i requires 0 <= i < |sorted| => SwappedAt(sorted[i], i, selected.value, hovered)))
  }

  /** The exchange with positions forgotten. */
  function Exchanged<T>(current: Entry<T>, dragged: Entry<T>, hovered: Entry<T>): Entry<T>
  {
    Unplaced(SwappedAt(current, 0, dragged, hovered))
  }

  /** Over an id-unique list holding the hovered entry and the dragged one
      (the latter perhaps at another position: `selected` keeps the position
      the drag started from), the exchange only swaps the two entries' places. */
  lemma ExchangeIsSwap<T>(items: seq<Entry<T>>, dragged: Entry<T>, hovered: Entry<T>, p: nat, q: nat)
    requires UniqueIds(items)
    requires p < |items| && items[p] == hovered
    requires q < |items| && items[q].id == dragged.id && Unplaced(items[q]) == Unplaced(dragged)
    requires dragged.id != hovered.id
    ensures var u := Map(Unplaced, items);
      Map((e: Entry<T>) => Exchanged(e, dragged, hovered), items) == u[p := u[q]][q := u[p]]
  {
    var u := Map(Unplaced, items);
    var x := Map((e: Entry<T>) => Exchanged(e, dragged, hovered), items);
    var w := u[p := u[q]][q := u[p]];
    forall k | 0 <= k < |items| ensures x[k] == w[k] {
      if k != p && k != q {
        assert items[k].id != hovered.id && items[k].id != dragged.id;
      }
    }
  }

  /** Dragging an entry of the list over another saved entry of the list
      yields the same entries, only their positions differ. The dragged entry
      is `selected` as it was when the drag started, so after earlier swaps of
      the same drag its position may differ from the listed one. */
  lemma DragOverPermutes<T>(items: seq<Entry<T>>, dragged: Entry<T>, hovered: Entry<T>)
    requires UniqueIds(items) && hovered in items
    requires exists q :: 0 <= q < |items| && items[q].id == dragged.id && Unplaced(items[q]) == Unplaced(dragged)
    requires hovered.id != dragged.id && !IsNewId(hovered.id)
    ensures var r := DragOver(items, Some(dragged), hovered);
      r.Some? && multiset(Map(Unplaced, r.value)) == multiset(Map(Unplaced, items))
  {
    var r := DragOver(items, Some(dragged), hovered).value;
    var sorted := SortBy(items, PositionOf);
    var exchange := (e: Entry<T>) => Exchanged(e, dragged, hovered);
    assert Map(Unplaced, r) == Map(exchange, sorted);
    MapPermutation(exchange, sorted, items);
    var p :| 0 <= p < |items| && items[p] == hovered;
    var q :| 0 <= q < |items| && items[q].id == dragged.id && Unplaced(items[q]) == Unplaced(dragged);
    ExchangeIsSwap(items, dragged, hovered, p, q);
    var u := Map(Unplaced, items);
    SwapPermutation(u, p, q);
  }
}
