/** The parser service's view of the shop
    (parser-server/src/core/shop/shop.service.ts): the per-product projection
    `getProducts` / `getProductsByIds` return, and the offer table that
    `upsertOffers` leaves. */
module Shop {
  import opened Wrappers
  import opened Reorder
  import opened Catalog
  import opened Matrix

  /** A product metafield: a free-form key and value. */
  datatype Metafield = Metafield(key: string, value: string)

  /** One variant as the parser sees it. */
  datatype VariantView = VariantView(id: Id, title: string, shopPrice: Option<int>, shopAmount: nat)

  /** One product as the parser sees it. */
  datatype ProductView = ProductView(id: Id, title: string, pfactor: Option<string>, pamount: Option<string>,
                                     stockx: Option<string>, variants: seq<VariantView>)

  // ---------------------------------------------------------------------
  // Projection
  // ---------------------------------------------------------------------

  /** `metafields.find(m => m.key === key)?.value`: the value of the first
      metafield with that key. */
  function FieldValue(fields: seq<Metafield>, key: string): (r: Option<string>)
    ensures r.None? <==> forall i :: 0 <= i < |fields| ==> fields[i].key != key
    ensures r.Some? ==> exists i :: 0 <= i < |fields| && fields[i].key == key && fields[i].value == r.value &&
                                    forall j :: 0 <= j < i ==> fields[j].key != key
  {
    if fields == [] then None
    else if fields[0].key == key then Some(fields[0].value)
    else
      var r := FieldValue(fields[1..], key);
      assert forall i :: 1 <= i < |fields| ==> fields[i] == fields[1..][i - 1];
      if r.Some? then
        var i :| 0 <= i < |fields[1..]| && fields[1..][i].key == key && fields[1..][i].value == r.value &&
                 forall j :: 0 <= j < i ==> fields[1..][j].key != key;
        assert fields[i + 1].key == key && fields[i + 1].value == r.value;
        r
      else r
  }

  /** `replaceAll(",", ".")`: every comma becomes a dot, every other character
      stays, and no comma is left. */
  function ReplaceCommas(s: string): (r: string)
    ensures |r| == |s|
    ensures forall i :: 0 <= i < |s| && s[i] != ',' ==> r[i] == s[i]
    ensures forall i :: 0 <= i < |s| && s[i] == ',' ==> r[i] == '.'
    ensures ',' !in r
  {
    if s == [] then []
    else [if s[0] == ',' then '.' else s[0]] + ReplaceCommas(s[1..])
  }

  /** The provider's offers on a variant (the nested `offers` filter by `userId`). */
  function ProviderOffers(offers: seq<Offer>, variantId: Id, providerId: Id): (r: seq<Offer>)
    ensures forall o :: o in r <==> o in offers && o.variantId == Some(variantId) && o.userId == providerId
    ensures |r| <= |offers|
  {
    if offers == [] then []
    else
      var o := offers[0];
      (if o.variantId == Some(variantId) && o.userId == providerId then [o] else []) +
      ProviderOffers(offers[1..], variantId, providerId)
  }

  /** `offers[0]?.price ?? null` over offers ordered by ascending price: the
      lowest price, or nothing when there is no offer. */
  function LowestPrice(offers: seq<Offer>): (r: Option<int>)
    ensures r.None? <==> offers == []
    ensures r.Some? ==> (exists i :: 0 <= i < |offers| && offers[i].price == r.value) &&
                        forall i :: 0 <= i < |offers| ==> r.value <= offers[i].price
  {
    if offers == [] then None
    else
      var rest := LowestPrice(offers[1..]);
      assert forall i :: 1 <= i < |offers| ==> offers[i] == offers[1..][i - 1];
      if rest.None? || offers[0].price <= rest.value then Some(offers[0].price)
      else
        var i :| 0 <= i < |offers[1..]| && offers[1..][i].price == rest.value;
        assert offers[i + 1].price == rest.value;
        rest
  }

  /** One variant's projection: the title from the product's options in
      position order, and the provider's lowest price and offer count. */
  function ViewOf(v: Variant, slots: seq<Slot>, offers: seq<Offer>, providerId: Id): VariantView
  {
    var mine := ProviderOffers(offers, v.id, providerId);
    VariantView(v.id, VariantTitle(v.tuple, slots), LowestPrice(mine), |mine|)
  }

  /** The product's variants, in table order. */
  function VariantsOf(variants: seq<Variant>, productId: Id): (r: seq<Variant>)
    ensures forall v :: v in r <==> v in variants && v.productId == productId
  {
    if variants == [] then []
    else (if variants[0].productId == productId then [variants[0]] else []) + VariantsOf(variants[1..], productId)
  }

  /** The projection of one product. */
  function ProductViewOf(p: Product, options: seq<Row<OptionData>>, variants: seq<Variant>, offers: seq<Offer>,
                         fields: seq<Metafield>, providerId: Id): (r: ProductView)
    ensures r.id == p.id && r.title == p.title
    ensures |r.variants| == |VariantsOf(variants, p.id)|
  {
    var slots := SlotsOf(ProductOptions(options, p.id));
    var vs := VariantsOf(variants, p.id);
    var pf := FieldValue(fields, "pfactor");
    ProductView(p.id, p.title,
                if pf.Some? then Some(ReplaceCommas(pf.value)) else None,
                FieldValue(fields, "pamount"), FieldValue(fields, "stockx"),
                seq(|vs|, i requires 0 <= i < |vs| => ViewOf(vs[i], slots, offers, providerId)))
  }

  /** Every projected variant belongs to the product; its shop price is the
      lowest price among the provider's offers on it (of any status), or
      nothing when the provider has none; its amount counts them; and the
      pfactor has no comma. */
  lemma ProductViewSpec(p: Product, options: seq<Row<OptionData>>, variants: seq<Variant>, offers: seq<Offer>,
                        fields: seq<Metafield>, providerId: Id)
    ensures var view := ProductViewOf(p, options, variants, offers, fields, providerId);
      && view.id == p.id && view.title == p.title
      && (view.pfactor.Some? ==> ',' !in view.pfactor.value)
      && (view.pfactor.None? <==> FieldValue(fields, "pfactor").None?)
      && (forall i :: 0 <= i < |view.variants| ==>
            var vv := view.variants[i];
            && (exists v :: v in variants && v.productId == p.id && v.id == vv.id)
            && vv.title == VariantTitle(VariantsOf(variants, p.id)[i].tuple, SlotsOf(ProductOptions(options, p.id)))
            && vv.shopAmount == |ProviderOffers(offers, vv.id, providerId)|
            && (vv.shopPrice.None? <==> forall o :: o in offers ==> !(o.variantId == Some(vv.id) && o.userId == providerId))
            && (vv.shopPrice.Some? ==>
                  (exists o :: o in offers && o.variantId == Some(vv.id) && o.userId == providerId && o.price == vv.shopPrice.value) &&
                  forall o :: o in offers && o.variantId == Some(vv.id) && o.userId == providerId ==> vv.shopPrice.value <= o.price))
  {
    var view := ProductViewOf(p, options, variants, offers, fields, providerId);
    var vs := VariantsOf(variants, p.id);
    forall i | 0 <= i < |view.variants|
      ensures var vv := view.variants[i];
        && (exists v :: v in variants && v.productId == p.id && v.id == vv.id)
        && (vv.shopPrice.None? <==> forall o :: o in offers ==> !(o.variantId == Some(vv.id) && o.userId == providerId))
        && (vv.shopPrice.Some? ==>
              (exists o :: o in offers && o.variantId == Some(vv.id) && o.userId == providerId && o.price == vv.shopPrice.value) &&
              forall o :: o in offers && o.variantId == Some(vv.id) && o.userId == providerId ==> vv.shopPrice.value <= o.price)
    {
      assert vs[i] in vs;
      ViewOfPrice(vs[i], SlotsOf(ProductOptions(options, p.id)), offers, providerId);
    }
  }

  /** One variant's shop price is the lowest of the provider's offers on it,
      or nothing when there is none. */
  lemma ViewOfPrice(v: Variant, slots: seq<Slot>, offers: seq<Offer>, providerId: Id)
    ensures var vv := ViewOf(v, slots, offers, providerId);
      && (vv.shopPrice.None? <==> forall o :: o in offers ==> !(o.variantId == Some(v.id) && o.userId == providerId))
      && (vv.shopPrice.Some? ==>
            (exists o :: o in offers && o.variantId == Some(v.id) && o.userId == providerId && o.price == vv.shopPrice.value) &&
            forall o :: o in offers && o.variantId == Some(v.id) && o.userId == providerId ==> vv.shopPrice.value <= o.price)
  {
    var vv := ViewOf(v, slots, offers, providerId);
    var mine := ProviderOffers(offers, v.id, providerId);
    if vv.shopPrice.None? {
      assert mine == [];
    } else {
      var k :| 0 <= k < |mine| && mine[k].price == vv.shopPrice.value;
      assert mine[k] in mine;
      forall o | o in offers && o.variantId == Some(v.id) && o.userId == providerId
        ensures vv.shopPrice.value <= o.price
      {
        var j :| 0 <= j < |mine| && mine[j] == o;
      }
    }
  }

  /** The projection lists every variant of the product, one entry per table
      row in table order, and carries the first pamount and stockx
      metafields' values unchanged. */
  lemma ProductViewShape(p: Product, options: seq<Row<OptionData>>, variants: seq<Variant>, offers: seq<Offer>,
                         fields: seq<Metafield>, providerId: Id)
    ensures var view := ProductViewOf(p, options, variants, offers, fields, providerId);
      && view.pamount == FieldValue(fields, "pamount")
      && view.stockx == FieldValue(fields, "stockx")
      && |view.variants| == |VariantsOf(variants, p.id)|
      && (forall i :: 0 <= i < |view.variants| ==> view.variants[i].id == VariantsOf(variants, p.id)[i].id)
      && (forall v :: v in variants && v.productId == p.id ==>
            exists i :: 0 <= i < |view.variants| && view.variants[i].id == v.id)
  {
    var view := ProductViewOf(p, options, variants, offers, fields, providerId);
    var vs := VariantsOf(variants, p.id);
    forall v | v in variants && v.productId == p.id
      ensures exists i :: 0 <= i < |view.variants| && view.variants[i].id == v.id
    {
      var i :| 0 <= i < |vs| && vs[i] == v;
      assert view.variants[i].id == v.id;
    }
  }

  // ---------------------------------------------------------------------
  // upsertOffers
  // ---------------------------------------------------------------------

  /** The offers `deleteMany` removes: the user's offers on the variant that
      are not SOLD or RETURNING. */
  predicate Replaced(o: Offer, variantId: Id, userId: Id)
  {
    o.variantId == Some(variantId) && o.userId == userId && !IsTerminal(o.status)
  }

  /** The offer table after `deleteMany`, in order. */
  function Kept(offers: seq<Offer>, variantId: Id, userId: Id): (r: seq<Offer>)
    ensures forall o :: o in r <==> o in offers && !Replaced(o, variantId, userId)
    ensures |r| <= |offers|
  {
    if offers == [] then []
    else (if Replaced(offers[0], variantId, userId) then [] else [offers[0]]) + Kept(offers[1..], variantId, userId)
  }

  /** The user's replaceable offers on the variant, in order. */
  function Mine(offers: seq<Offer>, variantId: Id, userId: Id): (r: seq<Offer>)
    ensures forall o :: o in r <==> o in offers && Replaced(o, variantId, userId)
  {
    if offers == [] then []
    else (if Replaced(offers[0], variantId, userId) then [offers[0]] else []) + Mine(offers[1..], variantId, userId)
  }

  /** The row `createMany` repeats: an ACTIVE offer of the user on the
      variant, with the variant's product id and title, the variant title
      from the product's options in position order, and the given profile
      and prices. Its id is set per created row. */
  function Template(p: Product, v: Variant, options: seq<Row<OptionData>>, userId: Id, profileId: Id,
                    price: int, offerPrice: int): (r: Offer)
    ensures Replaced(r, v.id, userId) && r.status == Active
    ensures r.productId == Some(p.id) && r.productTitle == p.title && r.profileId == Some(profileId)
    ensures r.price == price && r.offerPrice == offerPrice
  {
    Offer(0, userId, Active, price, offerPrice, Some(p.id), Some(v.id), p.title,
          VariantTitle(v.tuple, SlotsOf(ProductOptions(options, p.id))), Some(profileId))
  }

  /** `new Array(amount).fill(template)`, each row with its created id. */
  function Copies(template: Offer, amount: nat, startId: Id): (r: seq<Offer>)
    ensures |r| == amount
    ensures forall i :: 0 <= i < amount ==> r[i] == template.(id := startId + i)
  {
    seq(amount, i requires 0 <= i < amount => template.(id := startId + i))
  }

  /** The offer table `upsertOffers` commits. */
  function Upserted(offers: seq<Offer>, template: Offer, amount: nat, startId: Id): (r: seq<Offer>)
    requires template.variantId.Some?
    ensures forall o :: o in r <==>
      || (o in offers && !Replaced(o, template.variantId.value, template.userId))
      || o in Copies(template, amount, startId)
  {
    Kept(offers, template.variantId.value, template.userId) + Copies(template, amount, startId)
  }

  lemma {:induction false} KeptConcat(a: seq<Offer>, b: seq<Offer>, variantId: Id, userId: Id)
    ensures Kept(a + b, variantId, userId) == Kept(a, variantId, userId) + Kept(b, variantId, userId)
  {
    if a == [] {
      assert a + b == b;
    } else {
      assert (a + b)[0] == a[0];
      assert (a + b)[1..] == a[1..] + b;
      KeptConcat(a[1..], b, variantId, userId);
    }
  }

  lemma {:induction false} MineConcat(a: seq<Offer>, b: seq<Offer>, variantId: Id, userId: Id)
    ensures Mine(a + b, variantId, userId) == Mine(a, variantId, userId) + Mine(b, variantId, userId)
  {
    if a == [] {
      assert a + b == b;
    } else {
      assert (a + b)[0] == a[0];
      assert (a + b)[1..] == a[1..] + b;
      MineConcat(a[1..], b, variantId, userId);
    }
  }

  lemma {:induction false} KeptTwice(offers: seq<Offer>, variantId: Id, userId: Id)
    ensures Kept(Kept(offers, variantId, userId), variantId, userId) == Kept(offers, variantId, userId)
    ensures Mine(Kept(offers, variantId, userId), variantId, userId) == []
  {
    if offers != [] {
      var head := if Replaced(offers[0], variantId, userId) then [] else [offers[0]];
      KeptTwice(offers[1..], variantId, userId);
      KeptConcat(head, Kept(offers[1..], variantId, userId), variantId, userId);
      MineConcat(head, Kept(offers[1..], variantId, userId), variantId, userId);
      if head != [] {
        assert Kept(head, variantId, userId) == head by { assert head[1..] == []; }
        assert Mine(head, variantId, userId) == [] by { assert head[1..] == []; }
      }
    }
  }

  lemma {:induction false} CopiesAllMine(template: Offer, amount: nat, startId: Id)
    requires template.variantId.Some? && Replaced(template, template.variantId.value, template.userId)
    ensures Kept(Copies(template, amount, startId), template.variantId.value, template.userId) == []
    ensures Mine(Copies(template, amount, startId), template.variantId.value, template.userId) == Copies(template, amount, startId)
  {
    if amount > 0 {
      var c := Copies(template, amount, startId);
      assert c == [c[0]] + Copies(template, amount - 1, startId + 1);
      CopiesAllMine(template, amount - 1, startId + 1);
      KeptConcat([c[0]], Copies(template, amount - 1, startId + 1), template.variantId.value, template.userId);
      MineConcat([c[0]], Copies(template, amount - 1, startId + 1), template.variantId.value, template.userId);
      assert [c[0]][1..] == [];
    }
  }

  /** After an upsert the user's replaceable offers on the variant are
      exactly the `amount` new copies, and every other offer is the one that
      was there, in the same order. */
  lemma UpsertedSpec(offers: seq<Offer>, template: Offer, amount: nat, startId: Id)
    requires template.variantId.Some? && Replaced(template, template.variantId.value, template.userId)
    ensures var r := Upserted(offers, template, amount, startId);
      && Mine(r, template.variantId.value, template.userId) == Copies(template, amount, startId)
      && Kept(r, template.variantId.value, template.userId) == Kept(offers, template.variantId.value, template.userId)
      && (forall o :: !Replaced(o, template.variantId.value, template.userId) ==> (o in r <==> o in offers))
  {
    var vid, uid := template.variantId.value, template.userId;
    KeptConcat(Kept(offers, vid, uid), Copies(template, amount, startId), vid, uid);
    MineConcat(Kept(offers, vid, uid), Copies(template, amount, startId), vid, uid);
    KeptTwice(offers, vid, uid);
    CopiesAllMine(template, amount, startId);
  }

  /** Running the upsert a second time with the same arguments gives the
      table a single run would have given with the second run's ids: the
      user's replaceable offers on the variant are the same copies. */
  lemma UpsertIdempotent(offers: seq<Offer>, template: Offer, amount: nat, firstId: Id, secondId: Id)
    requires template.variantId.Some? && Replaced(template, template.variantId.value, template.userId)
    ensures Upserted(Upserted(offers, template, amount, firstId), template, amount, secondId)
         == Upserted(offers, template, amount, secondId)
  {
    UpsertedSpec(offers, template, amount, firstId);
  }
}
