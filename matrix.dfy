/** The option -> variant matrix of a product
    (cms-server/src/core/products/product.service.ts): which tuples the
    options generate, the free slot of a new option, the variants an option
    update still has to create, and the variant title shown on offers. */
module Matrix {
  import opened Wrappers
  import opened Reorder
  import opened Catalog
  import opened Sorting
  import Combinations

  /** One option value as the generator sees it: the option's slot and the
      value's title (`{ ...value, option: option.option }`). */
  datatype Entry = Entry(slot: Slot, title: string)

  function SlotKey(r: Row<OptionData>): int
  {
    r.data.slot
  }

  /** The product's options in `orderBy: { position: 'asc' }` order. */
  function ProductOptions(options: seq<Row<OptionData>>, productId: Id): seq<Row<OptionData>>
  {
    ByPosition(options, productId)
  }

  /** One option's values, in position order, as entries of its slot. */
  function EntriesOf(option: Row<OptionData>, values: seq<Row<string>>): (r: seq<Entry>)
    ensures forall j :: 0 <= j < |r| ==> r[j].slot == option.data.slot
  {
    var vs := ByPosition(values, option.id);
    seq(|vs|, j requires 0 <= j < |vs| => Entry(option.data.slot, vs[j].data))
  }

  /** The lists handed to getCombinations: one per option, in option order. */
  function ValueLists(opts: seq<Row<OptionData>>, values: seq<Row<string>>): (r: seq<seq<Entry>>)
    ensures |r| == |opts|
    ensures forall i, j :: 0 <= i < |r| && 0 <= j < |r[i]| ==> r[i][j].slot == opts[i].data.slot
  {
    seq(|opts|, i requires 0 <= i < |opts| => EntriesOf(opts[i], values))
  }

  /** `combination.find(c => c.option === k)?.title ?? null`. */
  function Pick(c: seq<Entry>, k: Slot): (r: Option<string>)
    ensures r.None? <==> forall j :: 0 <= j < |c| ==> c[j].slot != k
    ensures r.Some? ==> exists j :: 0 <= j < |c| && c[j].slot == k && c[j].title == r.value &&
                                   forall l :: 0 <= l < j ==> c[l].slot != k
  {
    if c == [] then None
    else if c[0].slot == k then Some(c[0].title)
    else
      var r := Pick(c[1..], k);
      assert forall j :: 1 <= j < |c| ==> c[j] == c[1..][j - 1];
      assert r.Some? ==> exists j :: 0 <= j < |c| && c[j].slot == k && c[j].title == r.value &&
                                     forall l :: 0 <= l < j ==> c[l].slot != k by {
        if r.Some? {
          var j :| 0 <= j < |c[1..]| && c[1..][j].slot == k && c[1..][j].title == r.value &&
                   forall l :: 0 <= l < j ==> c[1..][l].slot != k;
          assert c[j + 1] == c[1..][j];
        }
      }
      r
  }

  /** The `(option0, option1, option2)` of a combination. */
  function TupleOf(c: seq<Entry>): Tuple
  {
    [Pick(c, 0), Pick(c, 1), Pick(c, 2)]
  }

  /** The tuples of every combination, in getCombinations order. */
  function MatrixTuples(lists: seq<seq<Entry>>): (r: seq<Tuple>)
    ensures |r| == |Combinations.Combinations(lists)|
  {
    var cs := Combinations.Combinations(lists);
    seq(|cs|, i requires 0 <= i < |cs| => TupleOf(cs[i]))
  }

  /** The lists come from options with pairwise different slots. */
  ghost predicate DistinctSlots(lists: seq<seq<Entry>>, slots: seq<Slot>)
  {
    && |slots| == |lists|
    && (forall i, j :: 0 <= i < |lists| && 0 <= j < |lists[i]| ==> lists[i][j].slot == slots[i])
    && (forall i, j :: 0 <= i < j < |slots| ==> slots[i] != slots[j])
  }

  /** A combination puts each option's chosen title in that option's slot and
      leaves every slot no option holds null. */
  lemma {:induction false} TupleOfChoice(lists: seq<seq<Entry>>, slots: seq<Slot>, c: seq<Entry>)
    requires DistinctSlots(lists, slots) && Combinations.IsChoice(c, lists)
    ensures forall i :: 0 <= i < |c| ==> TupleOf(c)[slots[i]] == Some(c[i].title)
    ensures forall k: Slot :: k !in slots ==> TupleOf(c)[k] == None
  {
    forall i | 0 <= i < |c| ensures TupleOf(c)[slots[i]] == Some(c[i].title) {
      var k := slots[i];
      assert exists j :: 0 <= j < |lists[i]| && lists[i][j] == c[i];
      assert c[i].slot == k;
      var p := Pick(c, k);
      var j :| 0 <= j < |c| && c[j].slot == k && c[j].title == p.value && forall l :: 0 <= l < j ==> c[l].slot != k;
      assert exists m :: 0 <= m < |lists[j]| && lists[j][m] == c[j];
      assert c[j].slot == slots[j];
      assert j == i;
    }
    forall k: Slot | k !in slots ensures TupleOf(c)[k] == None {
      forall j | 0 <= j < |c| ensures c[j].slot != k {
        assert exists m :: 0 <= m < |lists[j]| && lists[j][m] == c[j];
        assert slots[j] in slots;
      }
    }
  }

  /** The generated tuples are exactly the tuples of the choices of one value
      per option, there are as many as the product of the value counts (one,
      all null, for no options), and with distinct titles within each option
      no tuple is generated twice. */
  lemma MatrixTuplesSpec(lists: seq<seq<Entry>>, slots: seq<Slot>)
    requires DistinctSlots(lists, slots)
    ensures |MatrixTuples(lists)| == Combinations.LengthProduct(lists)
    ensures lists == [] ==> MatrixTuples(lists) == [[None, None, None]]
    ensures forall t :: t in MatrixTuples(lists) <==> exists c :: Combinations.IsChoice(c, lists) && t == TupleOf(c)
    ensures (forall i :: 0 <= i < |lists| ==> Combinations.NoDuplicates(lists[i])) ==>
      Combinations.NoDuplicates(MatrixTuples(lists))
  {
    var cs := Combinations.Combinations(lists);
    Combinations.CombinationsCount(lists);
    forall t ensures t in MatrixTuples(lists) <==> exists c :: Combinations.IsChoice(c, lists) && t == TupleOf(c) {
      if t in MatrixTuples(lists) {
        var i :| 0 <= i < |cs| && MatrixTuples(lists)[i] == t;
        Combinations.CombinationsMember(lists, cs[i]);
      }
      if exists c :: Combinations.IsChoice(c, lists) && t == TupleOf(c) {
        var c :| Combinations.IsChoice(c, lists) && t == TupleOf(c);
        Combinations.CombinationsMember(lists, c);
        var i :| 0 <= i < |cs| && cs[i] == c;
        assert MatrixTuples(lists)[i] == t;
      }
    }
    if forall i :: 0 <= i < |lists| ==> Combinations.NoDuplicates(lists[i]) {
      Combinations.CombinationsNoDuplicates(lists);
      var m := MatrixTuples(lists);
      forall i, j | 0 <= i < j < |m| ensures m[i] != m[j] {
        ChoicesDiffer(lists, slots, cs[i], cs[j]);
      }
    }
  }

  /** Two different choices give different tuples. */
  lemma ChoicesDiffer(lists: seq<seq<Entry>>, slots: seq<Slot>, c: seq<Entry>, d: seq<Entry>)
    requires DistinctSlots(lists, slots)
    requires c in Combinations.Combinations(lists) && d in Combinations.Combinations(lists) && c != d
    ensures TupleOf(c) != TupleOf(d)
  {
    Combinations.CombinationsMember(lists, c);
    Combinations.CombinationsMember(lists, d);
    TupleOfChoice(lists, slots, c);
    TupleOfChoice(lists, slots, d);
    var i :| 0 <= i < |c| && c[i] != d[i];
    assert exists m :: 0 <= m < |lists[i]| && lists[i][m] == c[i];
    assert exists m :: 0 <= m < |lists[i]| && lists[i][m] == d[i];
    assert c[i].slot == d[i].slot;
    assert TupleOf(c)[slots[i]] != TupleOf(d)[slots[i]];
  }

  // ---------------------------------------------------------------------
  // The slot of a new option
  // ---------------------------------------------------------------------

  ghost predicate Ascending(s: seq<int>)
  {
    forall i, j :: 0 <= i < j < |s| ==> s[i] <= s[j]
  }

  /** createOption's slot search over the product's existing slots in
      ascending order: the first index i whose slot is not i. With fewer than
      three options this is the smallest slot no option holds. */
  method FreeSlot(slots: seq<Slot>) returns (slot: Slot)
    requires |slots| < 3 && Ascending(slots)
    ensures slot !in slots
    ensures forall k :: 0 <= k < slot ==> k in slots
  {
    var i := 0;
    while i < 3 && i < |slots| && slots[i] == i
      invariant 0 <= i <= |slots|
      invariant forall k :: 0 <= k < i ==> slots[k] == k
    {
      i := i + 1;
    }
    slot := i;
    forall k | 0 <= k < slot ensures k in slots {
      assert slots[k] == k;
    }
    forall j | 0 <= j < |slots| ensures slots[j] != slot {
      if j > slot {
        assert slots[j] >= slots[slot];
      }
    }
  }

  /** createOption's `cOptions`: the product's options ordered by slot. */
  function SlotOrder(options: seq<Row<OptionData>>, productId: Id): seq<Row<OptionData>>
  {
    SortBy(Inside(options, productId), SlotKey)
  }

  /** The slots of `cOptions` ascend, there is one per option of the
      product, and they are exactly the slots the product's options hold. */
  lemma SlotOrderSpec(options: seq<Row<OptionData>>, productId: Id)
    ensures var slots := SlotsOf(SlotOrder(options, productId));
      && Ascending(slots) && |slots| == |Inside(options, productId)|
      && forall k: Slot :: k in slots <==>
           exists i :: 0 <= i < |options| && InScope(options[i], productId) && options[i].data.slot == k
  {
    forall k: Slot ensures k in SlotsOf(SlotOrder(options, productId)) <==> exists i :: 0 <= i < |options| && InScope(options[i], productId) && options[i].data.slot == k {
      if k in SlotsOf(SlotOrder(options, productId)) {
        SlotOrderSound(options, productId, k);
      }
      if exists i :: 0 <= i < |options| && InScope(options[i], productId) && options[i].data.slot == k {
        var i :| 0 <= i < |options| && InScope(options[i], productId) && options[i].data.slot == k;
        SlotOrderComplete(options, productId, i);
      }
    }
  }

  /** Every slot of `cOptions` is held by an option of the product. */
  lemma SlotOrderSound(options: seq<Row<OptionData>>, productId: Id, k: Slot)
    requires k in SlotsOf(SlotOrder(options, productId))
    ensures exists i :: 0 <= i < |options| && InScope(options[i], productId) && options[i].data.slot == k
  {
    var inside := Inside(options, productId);
    var sorted := SlotOrder(options, productId);
    var slots := SlotsOf(sorted);
    var j :| 0 <= j < |slots| && slots[j] == k;
    assert sorted[j] in multiset(inside);
    var i :| 0 <= i < |inside| && inside[i] == sorted[j];
    var m :| 0 <= m < |options| && options[m] == inside[i];
  }

  /** Every option of the product has its slot in `cOptions`. */
  lemma SlotOrderComplete(options: seq<Row<OptionData>>, productId: Id, i: nat)
    requires i < |options| && InScope(options[i], productId)
    ensures options[i].data.slot in SlotsOf(SlotOrder(options, productId))
  {
    var sorted := SlotOrder(options, productId);
    assert options[i] in multiset(sorted);
    var j :| 0 <= j < |sorted| && sorted[j] == options[i];
    assert SlotsOf(sorted)[j] == options[i].data.slot;
  }

  // ---------------------------------------------------------------------
  // updateOption's final synchronisation
  // ---------------------------------------------------------------------

  /** The combinations' tuples that no existing variant has, in combination order. */
  function NotIn(combos: seq<Tuple>, existing: seq<Tuple>): (r: seq<Tuple>)
    ensures |r| <= |combos|
  {
    if combos == [] then []
    else NotIn(combos[..|combos| - 1], existing) +
         (if combos[|combos| - 1] in existing then [] else [combos[|combos| - 1]])
  }

  /** Every missing tuple is a combination no existing variant has. */
  lemma {:induction false} NotInMembers(combos: seq<Tuple>, existing: seq<Tuple>)
    ensures forall t :: t in NotIn(combos, existing) ==> t in combos && t !in existing
  {
    if combos != [] {
      var init := combos[..|combos| - 1];
      NotInMembers(init, existing);
      assert forall t :: t in init ==> t in combos;
    }
  }

  /** The loop over the combinations: a combination's tuple is collected when
      no existing variant of the product has it. */
  method MissingTuples(combos: seq<Tuple>, existing: seq<Tuple>) returns (missing: seq<Tuple>)
    ensures missing == NotIn(combos, existing)
  {
    missing := [];
    for i := 0 to |combos|
      invariant missing == NotIn(combos[..i], existing)
    {
      assert combos[..i + 1][..i] == combos[..i];
      if combos[i] !in existing {
        missing := missing + [combos[i]];
      }
    }
    assert combos[..|combos|] == combos;
  }

  /** The collected tuples are exactly the combinations no variant has; so
      after creating them every combination has a variant, and when neither
      the combinations nor the existing tuples repeat, the tuples still do
      not repeat. */
  lemma {:induction false} NotInSpec(combos: seq<Tuple>, existing: seq<Tuple>)
    ensures forall t :: t in NotIn(combos, existing) <==> t in combos && t !in existing
    ensures Combinations.NoDuplicates(combos) && Combinations.NoDuplicates(existing) ==>
      Combinations.NoDuplicates(existing + NotIn(combos, existing))
  {
    if combos != [] {
      var init, x := combos[..|combos| - 1], combos[|combos| - 1];
      assert combos == init + [x];
      NotInSpec(init, existing);
      if Combinations.NoDuplicates(combos) && Combinations.NoDuplicates(existing) {
        assert Combinations.NoDuplicates(init) by {
          forall i, j | 0 <= i < j < |init| ensures init[i] != init[j] {
            assert init[i] == combos[i] && init[j] == combos[j];
          }
        }
        var prev := existing + NotIn(init, existing);
        if x !in existing {
          assert x !in init by {
            forall i | 0 <= i < |init| ensures init[i] != x {
              assert combos[i] == init[i];
            }
          }
          var all := prev + [x];
          assert existing + NotIn(combos, existing) == all;
          forall i, j | 0 <= i < j < |all| ensures all[i] != all[j] {
            if j == |prev| {
              assert all[i] in prev;
            }
          }
        } else {
          assert existing + NotIn(combos, existing) == prev;
        }
      }
    }
  }

  // ---------------------------------------------------------------------
  // Variant titles
  // ---------------------------------------------------------------------

  /** A slot's text in `join`: a null column renders as the empty string. */
  function SlotText(t: Tuple, k: Slot): string
  {
    t[k].GetOr("")
  }

  /** `parts.join(' | ')`. */
  function JoinBar(parts: seq<string>): string
  {
    if parts == [] then ""
    else if |parts| == 1 then parts[0]
    else parts[0] + " | " + JoinBar(parts[1..])
  }

  /** The slots of the product's options, in option position order. */
  function SlotsOf(opts: seq<Row<OptionData>>): (r: seq<Slot>)
    ensures |r| == |opts|
    ensures forall i :: 0 <= i < |opts| ==> r[i] == opts[i].data.slot
  {
    seq(|opts|, i requires 0 <= i < |opts| => opts[i].data.slot)
  }

  /** The texts the title is made of: one per option, in option order. */
  function TitleParts(t: Tuple, slots: seq<Slot>): (r: seq<string>)
    ensures |r| == |slots|
    ensures forall i :: 0 <= i < |slots| ==> r[i] == SlotText(t, slots[i])
  {
    seq(|slots|, i requires 0 <= i < |slots| => SlotText(t, slots[i]))
  }

  /** `options.map(option => variant['option' + option.option]).join(' | ')`.
      When no value title contains a bar, splitting the title at " | " gives
      back the slot texts in option order. */
  function VariantTitle(t: Tuple, slots: seq<Slot>): (r: string)
    ensures slots != [] && (forall k: Slot :: t[k].Some? ==> '|' !in t[k].value) ==>
      SplitBar(r) == TitleParts(t, slots)
  {
    var parts := TitleParts(t, slots);
    if slots != [] && (forall k: Slot :: t[k].Some? ==> '|' !in t[k].value) then
      assert forall i :: 0 <= i < |parts| ==> '|' !in parts[i] by {
        forall i | 0 <= i < |parts| ensures '|' !in parts[i] {
          assert parts[i] == SlotText(t, slots[i]);
        }
      }
      SplitJoin(parts);
      JoinBar(parts)
    else JoinBar(parts)
  }

  /** The first index of the separator " | ". */
  function FindSeparator(s: string): (r: Option<nat>)
    ensures r.Some? ==> r.value + 3 <= |s| && s[r.value..r.value + 3] == " | "
    decreases |s|
  {
    if |s| < 3 then None
    else if s[..3] == " | " then Some(0)
    else match FindSeparator(s[1..])
      case None => None
      case Some(j) =>
        assert s[j + 1..j + 4] == s[1..][j..j + 3];
        Some(j + 1)
  }

  /** Splitting a title back into its parts at every " | ". */
  function SplitBar(s: string): seq<string>
    decreases |s|
  {
    match FindSeparator(s)
    case None => [s]
    case Some(i) => [s[..i]] + SplitBar(s[i + 3..])
  }

  lemma {:induction false} NoSeparator(a: string)
    requires '|' !in a
    ensures FindSeparator(a) == None
    decreases |a|
  {
    if |a| >= 3 {
      assert a[1] in a;
      assert a[1..] == a[1..];
      forall c | c in a[1..] ensures c != '|' {
        assert c in a;
      }
      NoSeparator(a[1..]);
    }
  }

  lemma {:induction false} SeparatorAfter(a: string, rest: string)
    requires '|' !in a
    ensures FindSeparator(a + " | " + rest) == Some(|a|)
    decreases |a|
  {
    var s := a + " | " + rest;
    if a == [] {
      assert s[..3] == " | ";
    } else {
      assert s[1] != '|' by {
        if |a| >= 2 { assert s[1] == a[1] && a[1] in a; }
        else { assert s[1] == ' '; }
      }
      assert s[..3] != " | " by { assert s[..3][1] == s[1]; }
      forall c | c in a[1..] ensures c != '|' {
        assert c in a;
      }
      assert s[1..] == a[1..] + " | " + rest;
      SeparatorAfter(a[1..], rest);
    }
  }

  /** The title splits back into its parts when no part contains '|'. */
  lemma {:induction false} SplitJoin(parts: seq<string>)
    requires parts != []
    requires forall i :: 0 <= i < |parts| ==> '|' !in parts[i]
    ensures SplitBar(JoinBar(parts)) == parts
    decreases |parts|
  {
    if |parts| == 1 {
      NoSeparator(parts[0]);
    } else {
      var rest := JoinBar(parts[1..]);
      SeparatorAfter(parts[0], rest);
      var s := parts[0] + " | " + rest;
      assert s[..|parts[0]|] == parts[0];
      assert s[|parts[0]| + 3..] == rest;
      forall i | 0 <= i < |parts[1..]| ensures '|' !in parts[1..][i] {
        assert parts[1..][i] == parts[i + 1];
      }
      SplitJoin(parts[1..]);
    }
  }
}
