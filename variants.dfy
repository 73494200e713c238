/** The variant transactions of cms-server/src/core/variants/variant.service.ts:
    creation with its per-product uniqueness check and the product's SKU and
    barcode as fallbacks, and the edit of a variant's tuple, both as written
    and as evidently intended. */
module Variants {
  import opened Wrappers
  import opened Reorder
  import opened Catalog
  import opened Matrix

  /** The option columns and codes of a variant edit. */
  datatype VariantEdit = VariantEdit(option0: Field<Option<string>>, option1: Field<Option<string>>,
                                     option2: Field<Option<string>>, sku: Field<Option<string>>,
                                     barcode: Field<Option<string>>)

  /** A `where` column: a left-out field matches every value. */
  predicate Matches(f: Field<Option<string>>, x: Option<string>)
  {
    f.Absent? || f.value == x
  }

  /** True when a variant of the product matches the three requested columns
      (`variants: { where: { option0, option1, option2 }, take: 1 }`). */
  predicate TupleTaken(variants: seq<Variant>, productId: Id,
                       f0: Field<Option<string>>, f1: Field<Option<string>>, f2: Field<Option<string>>)
  {
    exists i :: 0 <= i < |variants| && variants[i].productId == productId &&
      Matches(f0, variants[i].tuple[0]) && Matches(f1, variants[i].tuple[1]) && Matches(f2, variants[i].tuple[2])
  }

  /** `given || fallback`: a missing or empty code falls back. */
  function Fallback(given: Option<string>, fallback: Option<string>): Option<string>
  {
    if given.Some? && given.value != "" then given else fallback
  }

  /** No two variants of one product share a tuple. */
  ghost predicate TuplesUniquePerProduct(variants: seq<Variant>)
  {
    forall i, j :: 0 <= i < j < |variants| && variants[i].productId == variants[j].productId ==>
      variants[i].tuple != variants[j].tuple
  }

  /** No two variants share an id (the primary key). */
  ghost predicate UniqueVariantIds(variants: seq<Variant>)
  {
    forall i, j :: 0 <= i < j < |variants| ==> variants[i].id != variants[j].id
  }

  /** createVariant: a missing product is not found; a variant of the product
      matching the request is not unique; otherwise the new variant has the
      given columns (a left-out one is null), an empty title, and the
      request's SKU and barcode unless missing or empty, the product's
      otherwise. No variant of the product has its tuple. */
  function CreatedVariant(variants: seq<Variant>, products: seq<Product>, id: Id, productId: Id,
                          f0: Field<Option<string>>, f1: Field<Option<string>>, f2: Field<Option<string>>,
                          sku: Option<string>, barcode: Option<string>): (r: Result<Variant, Error>)
    ensures FindProduct(products, productId).None? <==> r == Failure(NotFound)
    ensures r == Failure(NotUnique) <==> FindProduct(products, productId).Some? && TupleTaken(variants, productId, f0, f1, f2)
    ensures r.Success? ==>
      var p := FindProduct(products, productId).value;
      && r.value.id == id && r.value.productId == productId && r.value.title == ""
      && r.value.tuple == [f0.Or(None), f1.Or(None), f2.Or(None)]
      && (sku.Some? && sku.value != "" ==> r.value.sku == sku)
      && (sku.None? || sku == Some("") ==> r.value.sku == p.sku)
      && (barcode.Some? && barcode.value != "" ==> r.value.barcode == barcode)
      && (barcode.None? || barcode == Some("") ==> r.value.barcode == p.barcode)
    ensures r.Success? ==> forall i :: 0 <= i < |variants| && variants[i].productId == productId ==>
      variants[i].tuple != r.value.tuple
  {
    match FindProduct(products, productId)
    case None => Failure(NotFound)
    case Some(p) =>
      if TupleTaken(variants, productId, f0, f1, f2) then Failure(NotUnique)
      else
        var t: Tuple := [f0.Or(None), f1.Or(None), f2.Or(None)];
        assert Matches(f0, t[0]) && Matches(f1, t[1]) && Matches(f2, t[2]);
        Success(Variant(id, productId, t, "", Fallback(sku, p.sku), Fallback(barcode, p.barcode)))
  }

  /** Creating a variant keeps the tuples of each product distinct. */
  lemma CreatedKeepsTuplesUnique(variants: seq<Variant>, products: seq<Product>, id: Id, productId: Id,
                                 f0: Field<Option<string>>, f1: Field<Option<string>>, f2: Field<Option<string>>,
                                 sku: Option<string>, barcode: Option<string>)
    requires TuplesUniquePerProduct(variants)
    requires CreatedVariant(variants, products, id, productId, f0, f1, f2, sku, barcode).Success?
    ensures TuplesUniquePerProduct(variants + [CreatedVariant(variants, products, id, productId, f0, f1, f2, sku, barcode).value])
  {
    var r := variants + [CreatedVariant(variants, products, id, productId, f0, f1, f2, sku, barcode).value];
    forall i, j | 0 <= i < j < |r| && r[i].productId == r[j].productId ensures r[i].tuple != r[j].tuple {
      if j < |variants| {
        assert r[i] == variants[i] && r[j] == variants[j];
      } else {
        assert r[i] == variants[i];
      }
    }
  }

  /** The tuple after the edit: a left-out column keeps its value. */
  function EditedTuple(t: Tuple, e: VariantEdit): (r: Tuple)
    ensures r[0] == e.option0.Or(t[0]) && r[1] == e.option1.Or(t[1]) && r[2] == e.option2.Or(t[2])
  {
    [e.option0.Or(t[0]), e.option1.Or(t[1]), e.option2.Or(t[2])]
  }

  /** `variant.update({ where: { id }, data })`. */
  function WithVariant(variants: seq<Variant>, id: Id, e: VariantEdit): (r: seq<Variant>)
    ensures |r| == |variants|
    ensures forall i :: 0 <= i < |r| && variants[i].id != id ==> r[i] == variants[i]
    ensures forall i :: 0 <= i < |r| && variants[i].id == id ==>
      r[i] == variants[i].(tuple := EditedTuple(variants[i].tuple, e), sku := e.sku.Or(variants[i].sku),
                           barcode := e.barcode.Or(variants[i].barcode))
  {
    seq(|variants|, i requires 0 <= i < |variants| =>
      var v := variants[i];
      if v.id == id then v.(tuple := EditedTuple(v.tuple, e), sku := e.sku.Or(v.sku), barcode := e.barcode.Or(v.barcode))
      else v)
  }

  /** The check as written: another variant of any product has the tuple
      (`findMany({ where: { option0, option1, option2 }, take: 2 })` finds two rows). */
  predicate GlobalClash(variants: seq<Variant>, variantId: Id, t: Tuple)
  {
    exists i :: 0 <= i < |variants| && variants[i].id != variantId && variants[i].tuple == t
  }

  /** The check as intended, the same one createVariant makes: another
      variant of the same product has the tuple. */
  predicate ProductClash(variants: seq<Variant>, variantId: Id, productId: Id, t: Tuple)
  {
    exists i :: 0 <= i < |variants| && variants[i].id != variantId && variants[i].productId == productId &&
      variants[i].tuple == t
  }

  /** The two tables updateVariant writes. */
  datatype VariantUpdate = VariantUpdate(variants: seq<Variant>, offers: seq<Offer>)

  /** updateVariant as written: a missing variant fails, a tuple any other
      variant has is rejected, and the variant's live offers get the literal
      title "TODO". */
  function UpdatedVariantAsWritten(variants: seq<Variant>, offers: seq<Offer>, variantId: Id, e: VariantEdit): (r: Result<VariantUpdate, Error>)
    ensures FindVariant(variants, variantId).None? ==> r == Failure(ServerError)
    ensures r == Failure(NotUnique) <==>
      FindVariant(variants, variantId).Some? &&
      GlobalClash(variants, variantId, EditedTuple(FindVariant(variants, variantId).value.tuple, e))
    ensures r.Success? <==>
      FindVariant(variants, variantId).Some? &&
      !GlobalClash(variants, variantId, EditedTuple(FindVariant(variants, variantId).value.tuple, e))
    ensures r.Success? ==> r.value == VariantUpdate(WithVariant(variants, variantId, e), WithTodoTitle(offers, variantId))
  {
    match FindVariant(variants, variantId)
    case None => Failure(ServerError)
    case Some(v) =>
      if GlobalClash(variants, variantId, EditedTuple(v.tuple, e)) then Failure(NotUnique)
      else Success(VariantUpdate(WithVariant(variants, variantId, e), WithTodoTitle(offers, variantId)))
  }

  /** updateVariant as intended: a tuple only clashes with the variants of
      the same product, and the variant's live offers get the title of the
      new tuple over the product's options in position order, as a value
      rename and upsertOffers compute it. */
  function UpdatedVariant(variants: seq<Variant>, options: seq<Row<OptionData>>, offers: seq<Offer>,
                          variantId: Id, e: VariantEdit): (r: Result<VariantUpdate, Error>)
    ensures FindVariant(variants, variantId).None? <==> r == Failure(ServerError)
    ensures r == Failure(NotUnique) <==>
      var found := FindVariant(variants, variantId);
      found.Some? && ProductClash(variants, variantId, found.value.productId, EditedTuple(found.value.tuple, e))
    ensures r.Success? ==>
      var v := FindVariant(variants, variantId).value;
      var title := VariantTitle(EditedTuple(v.tuple, e), SlotsOf(ProductOptions(options, v.productId)));
      && r.value.variants == WithVariant(variants, variantId, e)
      && |r.value.offers| == |offers|
      && (forall i :: 0 <= i < |offers| && IsLive(offers[i].status) && offers[i].variantId == Some(variantId) ==>
            r.value.offers[i] == offers[i].(variantTitle := title))
      && (forall i :: 0 <= i < |offers| && !(IsLive(offers[i].status) && offers[i].variantId == Some(variantId)) ==>
            r.value.offers[i] == offers[i])
  {
    match FindVariant(variants, variantId)
    case None => Failure(ServerError)
    case Some(v) =>
      var t := EditedTuple(v.tuple, e);
      if ProductClash(variants, variantId, v.productId, t) then Failure(NotUnique)
      else Success(VariantUpdate(WithVariant(variants, variantId, e),
                                 WithVariantTitle(offers, variantId, VariantTitle(t, SlotsOf(ProductOptions(options, v.productId))))))
  }

  /** With distinct ids, a successful edit keeps the tuples of each product
      distinct. */
  lemma UpdatedKeepsTuplesUnique(variants: seq<Variant>, options: seq<Row<OptionData>>, offers: seq<Offer>,
                                 variantId: Id, e: VariantEdit)
    requires UniqueVariantIds(variants) && TuplesUniquePerProduct(variants)
    requires UpdatedVariant(variants, options, offers, variantId, e).Success?
    ensures TuplesUniquePerProduct(UpdatedVariant(variants, options, offers, variantId, e).value.variants)
  {
    var v := FindVariant(variants, variantId).value;
    var t := EditedTuple(v.tuple, e);
    var r := WithVariant(variants, variantId, e);
    var k :| 0 <= k < |variants| && variants[k] == v;
    forall i, j | 0 <= i < j < |r| && r[i].productId == r[j].productId ensures r[i].tuple != r[j].tuple {
      if variants[i].id == variantId {
        assert i == k && r[i].tuple == t && r[j] == variants[j];
      } else if variants[j].id == variantId {
        assert j == k && r[j].tuple == t && r[i] == variants[i];
      } else {
        assert r[i] == variants[i] && r[j] == variants[j];
      }
    }
  }

  /** The check as written rejects a tuple that only a variant of another
      product has: variant 2 of product 20 cannot take size M because
      variant 1 of product 10 has it, although the intended check accepts. */
  lemma GlobalClashAcrossProducts()
    ensures var a := Variant(1, 10, [Some("M"), None, None], "", None, None);
      var b := Variant(2, 20, [Some("L"), None, None], "", None, None);
      var e := VariantEdit(Given(Some("M")), Absent, Absent, Absent, Absent);
      && UpdatedVariantAsWritten([a, b], [], 2, e) == Failure(NotUnique)
      && UpdatedVariant([a, b], [], [], 2, e).Success?
  {
    var a := Variant(1, 10, [Some("M"), None, None], "", None, None);
    var b := Variant(2, 20, [Some("L"), None, None], "", None, None);
    var e := VariantEdit(Given(Some("M")), Absent, Absent, Absent, Absent);
    var t := EditedTuple(b.tuple, e);
    assert FindVariant([a, b], 2) == Some(b);
    assert [a, b][0].tuple == t;
    assert !ProductClash([a, b], 2, 20, t);
  }

  /** The title as written is a placeholder: after variant 1 becomes size M,
      its live offer shows "TODO", where the intended title is "M", the size
      option being the product's only option. */
  lemma TodoTitle()
    ensures var v := Variant(1, 10, [Some("S"), None, None], "", None, None);
      var size := Row(5, Some(10), 0, OptionData("Size", 0));
      var o := Offer(7, 3, Active, 100, 90, Some(10), Some(1), "Shoe", "S", Some(1));
      var e := VariantEdit(Given(Some("M")), Absent, Absent, Absent, Absent);
      && UpdatedVariantAsWritten([v], [o], 1, e).Success?
      && UpdatedVariantAsWritten([v], [o], 1, e).value.offers[0].variantTitle == "TODO"
      && UpdatedVariant([v], [size], [o], 1, e).Success?
      && UpdatedVariant([v], [size], [o], 1, e).value.offers[0].variantTitle == "M"
  {
    var v := Variant(1, 10, [Some("S"), None, None], "", None, None);
    var size := Row(5, Some(10), 0, OptionData("Size", 0));
    assert FindVariant([v], 1) == Some(v);
    assert Inside([size], 10) == [size];
    assert ProductOptions([size], 10) == [size];
    assert TitleParts([Some("M"), None, None], [0]) == ["M"];
  }
}
