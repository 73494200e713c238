/** The catalogue's rows and the table-wide offer updates that several
    transactions share (cms-server/src/core/products/product.service.ts,
    variants/variant.service.ts, offers/offer.service.ts).

    Ids are natural numbers. Nullable columns are `Option`s. A variant's three
    option columns `option0`, `option1`, `option2` are one length-3 tuple
    indexed by the option's slot. */
module Catalog {
  import opened Wrappers
  import opened Reorder

  /** The slot of an option: which of the variant columns it fills. */
  type Slot = s: nat | s < 3

  /** `(option0, option1, option2)` of a variant. */
  type Tuple = t: seq<Option<string>> | |t| == 3 witness [None, None, None]

  datatype Status = Active | NoMatch | Sold | Returning

  /** Terminal statuses: the offer belongs to sales history. */
  predicate IsTerminal(s: Status)
  {
    s == Sold || s == Returning
  }

  /** The filter `status notIn [SOLD, NO_MATCH, RETURNING]`. */
  predicate IsLive(s: Status)
  {
    s != Sold && s != NoMatch && s != Returning
  }

  /** The errors an operation reports; every failure rolls the transaction back. */
  datatype Error =
    | NotFound               // a referenced product, variant or offer does not exist
    | OptionLimit            // a fourth option
    | NotUnique              // a title or variant tuple that must be unique is taken
    | OfferSold              // an edit or removal of a SOLD offer
    | OfferReturning         // an edit or removal of a RETURNING offer
    | UnmatchedStatusChange  // a status change on a NO_MATCH offer without a variant
    | NoDefaultProfile       // no delivery profile is the default
    | DefaultProfileRemoval  // removal of the default delivery profile
    | ServerError            // any other failure inside the transaction

  datatype Product = Product(id: Id, title: string, sku: Option<string>, barcode: Option<string>)

  /** An option row's own columns; its scope is the product. */
  datatype OptionData = OptionData(title: string, slot: Slot)

  /** An image row's own columns; its scope is the product or the variant. */
  datatype ImageData = ImageData(src: string, alt: string)

  datatype Variant = Variant(id: Id, productId: Id, tuple: Tuple, title: string,
                             sku: Option<string>, barcode: Option<string>)

  datatype Offer = Offer(id: Id, userId: Id, status: Status, price: int, offerPrice: int,
                         productId: Option<Id>, variantId: Option<Id>,
                         productTitle: string, variantTitle: string, profileId: Option<Id>)

  datatype Profile = Profile(id: Id, title: string, isDefault: bool)

  /** A request field that may be left out (`undefined`) or given, possibly as null. */
  datatype Field<T> = Absent | Given(value: T) {
    /** The column after an update: a left-out field keeps the current value. */
    function Or(current: T): T
    {
      if Given? then value else current
    }
  }

  /** The first variant with that id. */
  function FindVariant(variants: seq<Variant>, id: Id): (r: Option<Variant>)
    ensures r.Some? <==> exists i :: 0 <= i < |variants| && variants[i].id == id
    ensures r.Some? ==> r.value in variants && r.value.id == id
  {
    if variants == [] then None
    else if variants[0].id == id then Some(variants[0])
    else
      assert forall i :: 1 <= i < |variants| ==> variants[i] == variants[1..][i - 1];
      FindVariant(variants[1..], id)
  }

  function FindOffer(offers: seq<Offer>, id: Id): (r: Option<Offer>)
    ensures r.Some? <==> exists i :: 0 <= i < |offers| && offers[i].id == id
    ensures r.Some? ==> r.value in offers && r.value.id == id
  {
    if offers == [] then None
    else if offers[0].id == id then Some(offers[0])
    else
      assert forall i :: 1 <= i < |offers| ==> offers[i] == offers[1..][i - 1];
      FindOffer(offers[1..], id)
  }

  function FindProduct(products: seq<Product>, id: Id): (r: Option<Product>)
    ensures r.Some? <==> exists i :: 0 <= i < |products| && products[i].id == id
    ensures r.Some? ==> r.value in products && r.value.id == id
  {
    if products == [] then None
    else if products[0].id == id then Some(products[0])
    else
      assert forall i :: 1 <= i < |products| ==> products[i] == products[1..][i - 1];
      FindProduct(products[1..], id)
  }

  /** The ids of a product's variants. */
  function VariantIdsOf(variants: seq<Variant>, productId: Id): (r: set<Id>)
    ensures forall id :: id in r <==> exists v :: v in variants && v.productId == productId && v.id == id
  {
    set v | v in variants && v.productId == productId :: v.id
  }

  // ---------------------------------------------------------------------
  // Variant deletion and its effect on offers
  // ---------------------------------------------------------------------

  /** `variant.deleteMany`: the variants whose id is in `gone` disappear, the
      others stay in order. */
  function WithoutVariants(variants: seq<Variant>, gone: set<Id>): (r: seq<Variant>)
    ensures forall v :: v in r <==> v in variants && v.id !in gone
    ensures |r| <= |variants|
  {
    if variants == [] then []
    else (if variants[0].id in gone then [] else [variants[0]]) + WithoutVariants(variants[1..], gone)
  }

  /** The database's `ON DELETE SET NULL` on `offer.variantId`: offers of a
      deleted variant lose their variant and keep everything else. */
  function Unlinked(offers: seq<Offer>, gone: set<Id>): (r: seq<Offer>)
    ensures |r| == |offers|
    ensures forall i :: 0 <= i < |r| ==> r[i].(variantId := offers[i].variantId) == offers[i]
    ensures forall i :: 0 <= i < |r| ==>
      (r[i].variantId == offers[i].variantId <==> offers[i].variantId.None? || offers[i].variantId.value !in gone)
    ensures forall i :: 0 <= i < |r| ==> r[i].variantId.None? || r[i].variantId.value !in gone
  {
    seq(|offers|, i requires 0 <= i < |offers| =>
      if offers[i].variantId.Some? && offers[i].variantId.value in gone then offers[i].(variantId := None) else offers[i])
  }

  /** No offer outside NO_MATCH, SOLD and RETURNING is without a variant. */
  ghost predicate NoLiveOrphans(offers: seq<Offer>)
  {
    forall i :: 0 <= i < |offers| && IsLive(offers[i].status) ==> offers[i].variantId.Some?
  }

  /** The demotion every variant-changing transaction ends with: an offer
      without a variant whose status is not SOLD, NO_MATCH or RETURNING becomes
      NO_MATCH. Only statuses change, only those offers' change, and afterwards
      no live offer is without a variant. */
  function DemoteOrphans(offers: seq<Offer>): (r: seq<Offer>)
    ensures |r| == |offers|
    ensures forall i :: 0 <= i < |r| ==> r[i].(status := offers[i].status) == offers[i]
    ensures forall i :: 0 <= i < |r| && r[i].status != offers[i].status ==>
      IsLive(offers[i].status) && offers[i].variantId.None? && r[i].status == NoMatch
    ensures NoLiveOrphans(r)
  {
    seq(|offers|, i requires 0 <= i < |offers| =>
      if IsLive(offers[i].status) && offers[i].variantId.None? then offers[i].(status := NoMatch) else offers[i])
  }

  /** Demotion leaves SOLD and RETURNING offers, and every offer with a
      variant, exactly as they were, and doing it twice is doing it once. */
  lemma DemoteOrphansKeeps(offers: seq<Offer>)
    ensures forall i :: 0 <= i < |offers| && (IsTerminal(offers[i].status) || offers[i].variantId.Some?) ==>
      DemoteOrphans(offers)[i] == offers[i]
    ensures DemoteOrphans(DemoteOrphans(offers)) == DemoteOrphans(offers)
    ensures NoLiveOrphans(offers) ==> DemoteOrphans(offers) == offers
  {
  }

  /** Deleting variants and then demoting: every offer that was on a deleted
      variant is off it, and it is NO_MATCH unless it was SOLD, RETURNING or
      already NO_MATCH, which it stays. */
  lemma {:induction false} DeletionDemotes(offers: seq<Offer>, gone: set<Id>, i: nat)
    requires i < |offers| && offers[i].variantId.Some? && offers[i].variantId.value in gone
    ensures var r := DemoteOrphans(Unlinked(offers, gone));
      && r[i].variantId.None?
      && (if IsTerminal(offers[i].status) then r[i].status == offers[i].status else r[i].status == NoMatch)
  {
    var u := Unlinked(offers, gone);
    assert u[i].variantId.None? && u[i].status == offers[i].status;
  }

  // ---------------------------------------------------------------------
  // Title propagation
  // ---------------------------------------------------------------------

  /** True when the offer's variant exists and belongs to the product (the
      relation filter `variant: { productId }`). */
  predicate OnProduct(o: Offer, variants: seq<Variant>, productId: Id)
  {
    o.variantId.Some? &&
    match FindVariant(variants, o.variantId.value)
    case Some(v) => v.productId == productId
    case None => false
  }

  /** A product rename: live offers whose variant belongs to the product take
      the new product title; nothing else changes. */
  function WithProductTitle(offers: seq<Offer>, variants: seq<Variant>, productId: Id, title: string): (r: seq<Offer>)
    ensures |r| == |offers|
    ensures forall i :: 0 <= i < |r| ==> r[i].(productTitle := offers[i].productTitle) == offers[i]
    ensures forall i :: 0 <= i < |r| ==>
      r[i].productTitle == if IsLive(offers[i].status) && OnProduct(offers[i], variants, productId) then title else offers[i].productTitle
  {
    seq(|offers|, i requires 0 <= i < |offers| =>
      if IsLive(offers[i].status) && OnProduct(offers[i], variants, productId) then offers[i].(productTitle := title) else offers[i])
  }

  /** `updateVariant` as written: the variant's live offers get the literal
      title "TODO". */
  function WithTodoTitle(offers: seq<Offer>, variantId: Id): (r: seq<Offer>)
    ensures |r| == |offers|
    ensures forall i :: 0 <= i < |r| ==> r[i].(variantTitle := offers[i].variantTitle) == offers[i]
    ensures forall i :: 0 <= i < |r| ==>
      r[i].variantTitle == if IsLive(offers[i].status) && offers[i].variantId == Some(variantId) then "TODO" else offers[i].variantTitle
  {
    seq(|offers|, i requires 0 <= i < |offers| =>
      if IsLive(offers[i].status) && offers[i].variantId == Some(variantId) then offers[i].(variantTitle := "TODO") else offers[i])
  }

  /** The live offers of one variant take the given variant title. */
  function WithVariantTitle(offers: seq<Offer>, variantId: Id, title: string): (r: seq<Offer>)
    ensures |r| == |offers|
    ensures forall i :: 0 <= i < |r| ==> r[i].(variantTitle := offers[i].variantTitle) == offers[i]
    ensures forall i :: 0 <= i < |r| ==>
      r[i].variantTitle == if IsLive(offers[i].status) && offers[i].variantId == Some(variantId) then title else offers[i].variantTitle
  {
    seq(|offers|, i requires 0 <= i < |offers| =>
      if IsLive(offers[i].status) && offers[i].variantId == Some(variantId) then offers[i].(variantTitle := title) else offers[i])
  }

  // ---------------------------------------------------------------------
  // Substring search (the `contains` filter)
  // ---------------------------------------------------------------------

  predicate IsPrefix(p: string, s: string)
  {
    |p| <= |s| && s[..|p|] == p
  }

  /** `sub` occurs in `s` starting at index `i`. */
  ghost predicate OccursAt(s: string, sub: string, i: int)
  {
    0 <= i && i + |sub| <= |s| && s[i..i + |sub|] == sub
  }

  /** `contains`: `sub` occurs somewhere in `s`. */
  function Contains(s: string, sub: string): (r: bool)
    ensures r <==> exists i :: OccursAt(s, sub, i)
  {
    if IsPrefix(sub, s) then
      assert OccursAt(s, sub, 0);
      true
    else if s == [] then false
    else
      var r := Contains(s[1..], sub);
      forall i | OccursAt(s, sub, i) ensures OccursAt(s[1..], sub, i - 1) {
        assert i != 0;
        assert s[i..i + |sub|] == s[1..][i - 1..i - 1 + |sub|];
      }
      forall i | OccursAt(s[1..], sub, i) ensures OccursAt(s, sub, i + 1) {
        assert s[i + 1..i + 1 + |sub|] == s[1..][i..i + |sub|];
      }
      r
  }
}
