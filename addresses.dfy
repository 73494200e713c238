/** The addresses block of the user editor: the change set it sends after
    every local edit (addresses to create, update and delete), and the add,
    update and delete handlers of its list. */
module Addresses {
  import opened Wrappers
  import opened Lists

  /** A user's address. Ids of saved addresses come from the server; an
      address added in the browser gets a random id. */
  datatype Address = Address(id: nat, country: string, region: string, city: string, address: string)

  /** An address without its id, as a creation sends it. */
  datatype AddressFields = AddressFields(country: string, region: string, city: string, address: string)

  /** The request body; `None` is a field sent as `undefined`. */
  datatype AddressChanges = AddressChanges(
    createAddresses: Option<seq<AddressFields>>,
    updateAddresses: Option<seq<Address>>,
    deleteAddresses: Option<seq<nat>>)

  function FieldsOf(a: Address): AddressFields
  {
    AddressFields(a.country, a.region, a.city, a.address)
  }

  function IdOf(a: Address): nat
  {
    a.id
  }

  ghost predicate UniqueIds(s: seq<Address>)
  {
    forall i, j :: 0 <= i < j < |s| ==> s[i].id != s[j].id
  }

  /** `s.find(a => a.id === id)`: the first address with that id. */
  function Find(s: seq<Address>, id: nat): (r: Option<Address>)
    ensures r.Some? ==> r.value in s && r.value.id == id
    ensures r.None? <==> forall a :: a in s ==> a.id != id
  {
    if s == [] then None
    else if s[0].id == id then Some(s[0])
    else
      assert forall a :: a in s ==> a == s[0] || a in s[1..];
      Find(s[1..], id)
  }

  /** `find` returns the first address with the id. */
  lemma {:induction false} FindFirst(s: seq<Address>, id: nat)
    requires Find(s, id).Some?
    ensures exists i :: 0 <= i < |s| && s[i] == Find(s, id).value && forall j :: 0 <= j < i ==> s[j].id != id
  {
    if s[0].id != id {
      FindFirst(s[1..], id);
      var i :| 0 <= i < |s[1..]| && s[1..][i] == Find(s[1..], id).value && forall j :: 0 <= j < i ==> s[1..][j].id != id;
      assert s[i + 1] == Find(s, id).value;
      assert forall j :: 0 <= j < i + 1 ==> s[j].id != id by {
        forall j | 0 <= j < i + 1 ensures s[j].id != id {
          if j > 0 { assert s[j] == s[1..][j - 1]; }
        }
      }
    } else {
      assert s[0] == Find(s, id).value;
    }
  }

  lemma FindUnique(s: seq<Address>, k: nat)
    requires UniqueIds(s) && k < |s|
    ensures Find(s, s[k].id) == Some(s[k])
  {
    var r := Find(s, s[k].id).value;
    var j :| 0 <= j < |s| && s[j] == r;
  }

  // ----- Text: what `Object.values(c).sort().join()` computes -----

  /** The default order of `sort()` on strings: lexicographic by character. */
  predicate TextLe(a: string, b: string)
  {
    a == [] || (b != [] && (a[0] < b[0] || (a[0] == b[0] && TextLe(a[1..], b[1..]))))
  }

  lemma {:induction false} TextLeTotal(a: string, b: string)
    ensures TextLe(a, b) || TextLe(b, a)
  {
    if a != [] && b != [] && a[0] == b[0] {
      TextLeTotal(a[1..], b[1..]);
    }
  }

  lemma {:induction false} TextLeAntisymmetric(a: string, b: string)
    requires TextLe(a, b) && TextLe(b, a)
    ensures a == b
  {
    if a != [] && b != [] {
      TextLeAntisymmetric(a[1..], b[1..]);
      assert a == [a[0]] + a[1..] && b == [b[0]] + b[1..];
    }
  }

  lemma {:induction false} TextLeTransitive(a: string, b: string, c: string)
    requires TextLe(a, b) && TextLe(b, c)
    ensures TextLe(a, c)
  {
    if a != [] && b != [] && c != [] && a[0] == b[0] && b[0] == c[0] {
      TextLeTransitive(a[1..], b[1..], c[1..]);
    }
  }

  ghost predicate TextSorted(s: seq<string>)
  {
    forall i, j :: 0 <= i < j < |s| ==> TextLe(s[i], s[j])
  }

  function InsertText(x: string, s: seq<string>): (r: seq<string>)
    ensures multiset(r) == multiset(s) + multiset{x}
  {
    if s == [] then [x]
    else if TextLe(x, s[0]) then [x] + s
    else
      assert s == [s[0]] + s[1..];
      [s[0]] + InsertText(x, s[1..])
  }

  /** `sort()` on strings. */
  function SortText(s: seq<string>): (r: seq<string>)
    ensures multiset(r) == multiset(s)
  {
    if s == [] then []
    else
      assert s == [s[0]] + s[1..];
      InsertText(s[0], SortText(s[1..]))
  }

  /** Prepending a string no greater than any in a sorted list keeps it sorted. */
  lemma TextSortedCons(y: string, s: seq<string>)
    requires TextSorted(s)
    requires forall j :: 0 <= j < |s| ==> TextLe(y, s[j])
    ensures TextSorted([y] + s)
  {
    var r := [y] + s;
    forall i, j | 0 <= i < j < |r| ensures TextLe(r[i], r[j]) {
      assert r[j] == s[j - 1];
      if i > 0 {
        assert r[i] == s[i - 1];
      }
    }
  }

  lemma TextSortedTail(s: seq<string>)
    requires s != [] && TextSorted(s)
    ensures TextSorted(s[1..])
  {
    var t := s[1..];
    forall i, j | 0 <= i < j < |t| ensures TextLe(t[i], t[j]) {
      assert t[i] == s[i + 1] && t[j] == s[j + 1];
    }
  }

  lemma {:induction false} InsertTextSorted(x: string, s: seq<string>)
    requires TextSorted(s)
    ensures TextSorted(InsertText(x, s))
  {
    if s == [] {
    } else if TextLe(x, s[0]) {
      forall j | 0 <= j < |s| ensures TextLe(x, s[j]) {
        if j > 0 {
          TextLeTransitive(x, s[0], s[j]);
        }
      }
      TextSortedCons(x, s);
    } else {
      TextSortedTail(s);
      InsertTextSorted(x, s[1..]);
      var rest := InsertText(x, s[1..]);
      TextLeTotal(x, s[0]);
      forall j | 0 <= j < |rest| ensures TextLe(s[0], rest[j]) {
        assert rest[j] in multiset(rest);
        if rest[j] != x {
          var k :| 0 <= k < |s[1..]| && s[1..][k] == rest[j];
          assert s[k + 1] == rest[j];
        }
      }
      TextSortedCons(s[0], rest);
    }
  }

  lemma {:induction false} SortTextSorted(s: seq<string>)
    ensures TextSorted(SortText(s))
  {
    if s != [] {
      SortTextSorted(s[1..]);
      InsertTextSorted(s[0], SortText(s[1..]));
    }
  }

  lemma SortedHeadLe(s: seq<string>, x: string)
    requires TextSorted(s) && x in s
    ensures TextLe(s[0], x)
  {
    var i :| 0 <= i < |s| && s[i] == x;
    if i == 0 {
      TextLeTotal(x, x);
    }
  }

  /** Two sorted lists of the same strings are the same list. */
  lemma {:induction false} SortedUnique(a: seq<string>, b: seq<string>)
    requires TextSorted(a) && TextSorted(b) && multiset(a) == multiset(b)
    ensures a == b
  {
    if a == [] {
      assert |multiset(b)| == 0;
    } else {
      SameHeads(a, b);
      MultisetTail(a);
      MultisetTail(b);
      TextSortedTail(a);
      TextSortedTail(b);
      SortedUnique(a[1..], b[1..]);
      assert a == [a[0]] + a[1..] && b == [b[0]] + b[1..];
    }
  }

  /** Two non-empty sorted lists of the same strings start alike. */
  lemma SameHeads(a: seq<string>, b: seq<string>)
    requires TextSorted(a) && TextSorted(b) && multiset(a) == multiset(b) && a != []
    ensures b != [] && a[0] == b[0]
  {
    assert a[0] in multiset(b);
    assert b[0] in multiset(a);
    SortedHeadLe(b, a[0]);
    SortedHeadLe(a, b[0]);
    TextLeAntisymmetric(a[0], b[0]);
  }

  lemma MultisetTail(s: seq<string>)
    requires s != []
    ensures multiset(s[1..]) == multiset(s) - multiset{s[0]}
  {
    assert s == [s[0]] + s[1..];
  }

  /** `join()`: the strings separated by commas. */
  function Join(s: seq<string>): string
  {
    if s == [] then ""
    else if |s| == 1 then s[0]
    else s[0] + "," + Join(s[1..])
  }

  function Digit(d: nat): char
    requires d < 10
  {
    "0123456789"[d]
  }

  /** The decimal rendering of an id. */
  function IdText(n: nat): string
  {
    if n < 10 then [Digit(n)] else IdText(n / 10) + [Digit(n % 10)]
  }

  /** `Object.values(c)`. */
  function Values(a: Address): seq<string>
  {
    [IdText(a.id), a.country, a.region, a.city, a.address]
  }

  /** What the block compares: the address's values sorted and comma-joined. */
  function SortedText(a: Address): string
  {
    Join(SortText(Values(a)))
  }

  /** The compared text depends only on which values the address holds, not
      on which field holds which. */
  lemma SortedTextIgnoresFields(a: Address, b: Address)
    requires multiset(Values(a)) == multiset(Values(b))
    ensures SortedText(a) == SortedText(b)
  {
    SortTextSorted(Values(a));
    SortTextSorted(Values(b));
    SortedUnique(SortText(Values(a)), SortText(Values(b)));
  }

  // ----- The change set -----

  /** Local addresses the server does not know, without their ids. */
  function CreatedAddresses(state: seq<Address>, originals: seq<Address>): (r: seq<AddressFields>)
    ensures forall c :: c in state && Find(originals, c.id).None? ==> FieldsOf(c) in r
    ensures forall f :: f in r ==> exists c :: c in state && Find(originals, c.id).None? && f == FieldsOf(c)
  {
    var added := Filter(state, (c: Address) => Find(originals, c.id).None?);
    var r := Map(FieldsOf, added);
    assert forall c :: c in added ==> FieldsOf(c) in r by {
      forall c | c in added ensures FieldsOf(c) in r {
        var i :| 0 <= i < |added| && added[i] == c;
        assert r[i] == FieldsOf(c);
      }
    }
    assert forall f :: f in r ==> exists c :: c in state && Find(originals, c.id).None? && f == FieldsOf(c) by {
      forall f | f in r ensures exists c :: c in state && Find(originals, c.id).None? && f == FieldsOf(c) {
        var i :| 0 <= i < |r| && r[i] == f;
        assert added[i] in added;
      }
    }
    r
  }

  /** Nothing is deleted exactly when every original id is still present. */
  lemma DeletedNone(state: seq<Address>, originals: seq<Address>)
    ensures DeletedAddresses(state, originals) == [] <==> forall id :: Find(originals, id).Some? ==> Find(state, id).Some?
  {
    var deleted := DeletedAddresses(state, originals);
    if deleted != [] {
      var id := deleted[0];
      assert id in deleted;
      assert Find(originals, id).Some? && Find(state, id).None?;
    }
  }

  /** Ids of original addresses no longer present locally. */
  function DeletedAddresses(state: seq<Address>, originals: seq<Address>): (r: seq<nat>)
    ensures forall id :: id in r <==> Find(originals, id).Some? && Find(state, id).None?
  {
    var gone := Filter(originals, (c: Address) => Find(state, c.id).None?);
    var r := Map(IdOf, gone);
    assert forall id :: Find(originals, id).Some? && Find(state, id).None? ==> id in r by {
      forall id | Find(originals, id).Some? && Find(state, id).None? ensures id in r {
        var o := Find(originals, id).value;
        assert o in gone;
        var j :| 0 <= j < |gone| && gone[j] == o;
        assert r[j] == id;
      }
    }
    assert forall id :: id in r ==> Find(originals, id).Some? && Find(state, id).None? by {
      forall id | id in r ensures Find(originals, id).Some? && Find(state, id).None? {
        var j :| 0 <= j < |r| && r[j] == id;
        assert gone[j] in originals;
      }
    }
    r
  }

  /** The update test as written: an original with the same id exists and
      the two sorted, joined value lists differ. */
  predicate ChangedAsWritten(originals: seq<Address>, c: Address)
  {
    match Find(originals, c.id)
    case Some(o) => SortedText(c) != SortedText(o)
    case None => false
  }

  function UpdatedAddressesAsWritten(state: seq<Address>, originals: seq<Address>): (r: seq<Address>)
    ensures forall c :: c in r <==> c in state && ChangedAsWritten(originals, c)
  {
    Filter(state, (c: Address) => ChangedAsWritten(originals, c))
  }

  /** The update test as intended: some field differs from the original's. */
  predicate Changed(originals: seq<Address>, c: Address)
  {
    match Find(originals, c.id)
    case Some(o) => c != o
    case None => false
  }

  function UpdatedAddresses(state: seq<Address>, originals: seq<Address>): (r: seq<Address>)
    ensures forall c :: c in r <==> c in state && Changed(originals, c)
  {
    Filter(state, (c: Address) => Changed(originals, c))
  }

  /** The change set as the block computes it. */
  function DiffAsWritten(state: seq<Address>, originals: seq<Address>): (r: AddressChanges)
    ensures r.createAddresses.None? <==> forall c :: c in state ==> Find(originals, c.id).Some?
    ensures r.updateAddresses.None? <==> forall c :: c in state ==> !ChangedAsWritten(originals, c)
    ensures r.deleteAddresses.None? <==> forall id :: Find(originals, id).Some? ==> Find(state, id).Some?
  {
    var created, deleted := CreatedAddresses(state, originals), DeletedAddresses(state, originals);
    assert created != [] ==> created[0] in created;
    DeletedNone(state, originals);
    FilterEmpty(state, (c: Address) => ChangedAsWritten(originals, c));
    AddressChanges(
      NonEmpty(CreatedAddresses(state, originals)),
      NonEmpty(UpdatedAddressesAsWritten(state, originals)),
      NonEmpty(DeletedAddresses(state, originals)))
  }

  /** The change set with the intended update test. */
  function Diff(state: seq<Address>, originals: seq<Address>): (r: AddressChanges)
    ensures r.createAddresses.None? <==> forall c :: c in state ==> Find(originals, c.id).Some?
    ensures r.updateAddresses.None? <==> forall c :: c in state ==> !Changed(originals, c)
    ensures r.deleteAddresses.None? <==> forall id :: Find(originals, id).Some? ==> Find(state, id).Some?
  {
    var created, deleted := CreatedAddresses(state, originals), DeletedAddresses(state, originals);
    assert created != [] ==> created[0] in created;
    DeletedNone(state, originals);
    FilterEmpty(state, (c: Address) => Changed(originals, c));
    AddressChanges(
      NonEmpty(CreatedAddresses(state, originals)),
      NonEmpty(UpdatedAddresses(state, originals)),
      NonEmpty(DeletedAddresses(state, originals)))
  }

  lemma SwapKeepsSortedText(o: Address)
    ensures SortedText(o.(country := o.region, region := o.country)) == SortedText(o)
  {
    var c := o.(country := o.region, region := o.country);
    var vo := Values(o);
    assert Values(c) == vo[1 := vo[2]][2 := vo[1]];
    SwapPermutation(vo, 1, 2);
    SortedTextIgnoresFields(c, o);
  }

  lemma SwapUnchangedAsWritten(o: Address)
    ensures !ChangedAsWritten([o], o.(country := o.region, region := o.country))
  {
    SwapKeepsSortedText(o);
    assert Find([o], o.id) == Some(o);
  }

  lemma SwapUnreportedAsWritten(o: Address)
    ensures UpdatedAddressesAsWritten([o.(country := o.region, region := o.country)], [o]) == []
  {
    var c := o.(country := o.region, region := o.country);
    SwapUnchangedAsWritten(o);
    var r := UpdatedAddressesAsWritten([c], [o]);
    assert c !in r;
  }

  lemma SwapReported(o: Address)
    requires o.country != o.region
    ensures UpdatedAddresses([o.(country := o.region, region := o.country)], [o]) == [o.(country := o.region, region := o.country)]
  {
    var c := o.(country := o.region, region := o.country);
    assert Changed([o], c);
    var u := UpdatedAddresses([c], [o]);
    assert c in u;
  }

  /** Exchanging the country and the region of a saved address is not sent as
      an update by the block, although the address changed. */
  lemma SwappedFieldsUnreported(o: Address)
    requires o.country != o.region
    ensures var c := o.(country := o.region, region := o.country);
      && DiffAsWritten([c], [o]) == AddressChanges(None, None, None)
      && Diff([c], [o]) == AddressChanges(None, Some([c]), None)
  {
    var c := o.(country := o.region, region := o.country);
    assert CreatedAddresses([c], [o]) == [] by {
      FilterEmpty([c], (x: Address) => Find([o], x.id).None?);
    }
    assert DeletedAddresses([c], [o]) == [] by {
      assert Find([c], o.id).Some?;
      FilterEmpty([o], (x: Address) => Find([c], x.id).None?);
    }
    SwapUnreportedAsWritten(o);
    SwapReported(o);
  }

  /** With nothing edited locally the block sends nothing. */
  lemma DiffOfUnchanged(originals: seq<Address>)
    requires UniqueIds(originals)
    ensures Diff(originals, originals) == AddressChanges(None, None, None)
  {
    forall c | c in originals ensures Find(originals, c.id) == Some(c) {
      var k :| 0 <= k < |originals| && originals[k] == c;
      FindUnique(originals, k);
    }
    FilterEmpty(originals, (c: Address) => Find(originals, c.id).None?);
    FilterEmpty(originals, (c: Address) => Changed(originals, c));
  }

  // ----- The list handlers -----

  /** `onNewAddress`, with `id` standing for the `Math.random()` result. */
  function AddressAdded(state: seq<Address>, fields: AddressFields, id: nat): (r: seq<Address>)
    ensures |r| == |state| + 1 && r[..|state|] == state
    ensures r[|state|].id == id && FieldsOf(r[|state|]) == fields
  {
    state + [Address(id, fields.country, fields.region, fields.city, fields.address)]
  }

  /** `onUpdateAddress`. */
  function AddressReplaced(state: seq<Address>, a: Address): (r: seq<Address>)
    ensures |r| == |state|
    ensures forall i :: 0 <= i < |state| ==> r[i] == if state[i].id == a.id then a else state[i]
  {
    Map((c: Address) => if c.id == a.id then a else c, state)
  }

  /** `onDeleteAddress`. */
  function AddressRemoved(state: seq<Address>, id: nat): (r: seq<Address>)
    ensures forall c :: c in r <==> c in state && c.id != id
  {
    Filter(state, (c: Address) => c.id != id)
  }

  /** An address added under an id the server does not know is sent as a
      creation. */
  lemma AddReported(state: seq<Address>, originals: seq<Address>, fields: AddressFields, id: nat)
    requires Find(originals, id).None?
    ensures var d := Diff(AddressAdded(state, fields, id), originals);
      d.createAddresses.Some? && fields in d.createAddresses.value
  {
    var s := AddressAdded(state, fields, id);
    assert s[|state|] in s;
  }

  /** Deleting a saved address is sent as the deletion of its id. */
  lemma RemoveReported(state: seq<Address>, originals: seq<Address>, id: nat)
    requires Find(originals, id).Some?
    ensures var d := Diff(AddressRemoved(state, id), originals);
      d.deleteAddresses.Some? && id in d.deleteAddresses.value
  {
    var s := AddressRemoved(state, id);
    assert Find(s, id).None?;
  }

  /** Replacing a listed saved address by a different one with the same id is
      sent as an update carrying the new address. */
  lemma ReplaceReported(state: seq<Address>, originals: seq<Address>, a: Address)
    requires Find(originals, a.id).Some? && Find(originals, a.id).value != a
    requires Find(state, a.id).Some?
    ensures var d := Diff(AddressReplaced(state, a), originals);
      d.updateAddresses.Some? && a in d.updateAddresses.value
  {
    var s := AddressReplaced(state, a);
    var c := Find(state, a.id).value;
    var i :| 0 <= i < |state| && state[i] == c;
    assert s[i] == a;
    assert a in UpdatedAddresses(s, originals);
  }
}
