/** Image rows of products and variants
    (cms-server/src/core/products/product.service.ts and
    cms-server/src/core/variants/variant.service.ts): uploads append, edits
    rewrite `src` and `alt`, a removal detaches the row and compacts the
    positions of what is left. */
module Images {
  import opened Wrappers
  import opened Reorder
  import opened Catalog

  /** The rows an upload appends: one per uploaded file, each with the
      owner's product title as its `alt`. */
  function Uploaded(srcs: seq<string>, alt: string): (r: seq<ImageData>)
    ensures |r| == |srcs|
    ensures forall i :: 0 <= i < |r| ==> r[i] == ImageData(srcs[i], alt)
  {
    seq(|srcs|, i requires 0 <= i < |srcs| => ImageData(srcs[i], alt))
  }

  /** `image.update({ data: { src, alt } })` where a left-out field keeps its value. */
  function WithImageData(rows: seq<Row<ImageData>>, id: Id, src: Option<string>, alt: Option<string>): (r: seq<Row<ImageData>>)
    ensures |r| == |rows|
    ensures forall i :: 0 <= i < |r| && rows[i].id != id ==> r[i] == rows[i]
    ensures forall i :: 0 <= i < |r| && rows[i].id == id ==>
      r[i] == rows[i].(data := ImageData(src.GetOr(rows[i].data.src), alt.GetOr(rows[i].data.alt)))
  {
    seq(|rows|, i requires 0 <= i < |rows| =>
      if rows[i].id == id
      then rows[i].(data := ImageData(src.GetOr(rows[i].data.src), alt.GetOr(rows[i].data.alt)))
      else rows[i])
  }

  /** `image.update({ data: { productId: null } })`: the row leaves its owner
      but stays in the table. */
  function Detached<T>(rows: seq<Row<T>>, id: Id): (r: seq<Row<T>>)
    ensures |r| == |rows|
    ensures forall i :: 0 <= i < |r| ==> r[i] == if rows[i].id == id then rows[i].(scope := None) else rows[i]
  {
    seq(|rows|, i requires 0 <= i < |rows| => if rows[i].id == id then rows[i].(scope := None) else rows[i])
  }

  /** The owners of the rows are deleted and the references are set to null. */
  function DetachedFrom<T>(rows: seq<Row<T>>, scopes: set<Id>): (r: seq<Row<T>>)
    ensures |r| == |rows|
    ensures forall i :: 0 <= i < |r| ==>
      r[i] == if rows[i].scope.Some? && rows[i].scope.value in scopes then rows[i].(scope := None) else rows[i]
  {
    seq(|rows|, i requires 0 <= i < |rows| =>
      if rows[i].scope.Some? && rows[i].scope.value in scopes then rows[i].(scope := None) else rows[i])
  }

  /** removeImage: detach the image, then renumber the owner's images. */
  function Removed<T>(rows: seq<Row<T>>, scope: Id, id: Id): seq<Row<T>>
  {
    Compacted(Detached(rows, id), scope)
  }

  /** After a removal the image is in no scope, the owner's images are
      exactly 0..n-1 again, and every row keeps its id, data and (but for the
      removed one) its owner. */
  lemma RemovedSpec<T>(rows: seq<Row<T>>, scope: Id, id: Id)
    ensures var r := Removed(rows, scope, id);
      && Dense(r, scope)
      && (forall i :: 0 <= i < |r| && r[i].id == id ==> r[i].scope.None?)
      && multiset(UnplacedAll(r)) == multiset(UnplacedAll(Detached(rows, id)))
  {
    var d := Detached(rows, id);
    var r := Removed(rows, scope, id);
    CompactedIsDense(d, scope);
    CompactedIsPermutation(d, scope);
    forall i | 0 <= i < |r| && r[i].id == id ensures r[i].scope.None? {
      assert UnplacedAll(r)[i] in multiset(UnplacedAll(d));
      var j :| 0 <= j < |d| && UnplacedAll(d)[j] == Unplaced(r[i]);
    }
  }

  /** updateImage: the new text or source, if any, then the move, if any;
      either query fails on a missing image, and the move changes positions
      only. */
  function ImageUpdate(rows: seq<Row<ImageData>>, scope: Id, imageId: Id, src: Option<string>, alt: Option<string>,
                       position: Option<int>): (r: Option<seq<Row<ImageData>>>)
    ensures r.None? <==> (src.Some? || alt.Some? || position.Some?) && FindRow(rows, imageId).None?
    ensures var edited := if src.Some? || alt.Some? then WithImageData(rows, imageId, src, alt) else rows;
      && (r.Some? ==> UnplacedAll(r.value) == UnplacedAll(edited))
      && (r.Some? && position.None? ==> r.value == edited)
      && (position.Some? ==> r == Move(edited, scope, imageId, position.value))
  {
    if (src.Some? || alt.Some?) && FindRow(rows, imageId).None? then None
    else
      var edited := if src.Some? || alt.Some? then WithImageData(rows, imageId, src, alt) else rows;
      assert forall i :: 0 <= i < |rows| ==> edited[i].id == rows[i].id;
      if position.None? then Some(edited)
      else
        Move(edited, scope, imageId, position.value)
  }
}
