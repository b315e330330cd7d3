/** The demonstration resources guarded by the evaluator: a fixed list of
    products and a fixed list of orders built for the caller, listed in full
    with the blanket read flag or cut down to the caller's own records with
    the own-scope flag, and a product title patch checked against the record's owner. */
module Mock {
  import opened Common
  import opened Models
  import opened Rbac

  /** One demo record. `caption` is a product's title or an order's status. */
  datatype Record = Record(id: int, caption: string, ownerId: int)

  /** The three products built for caller `uid`: two of theirs and one of user `uid + 1`. */
  function Products(uid: int): (items: seq<Record>)
    ensures |items| == 3
  {
    [Record(1, "My product 1", uid), Record(2, "Alien product", uid + 1), Record(3, "My product 2", uid)]
  }

  /** The three orders built for caller `uid`: two of theirs and one of user `uid + 1`. */
  function Orders(uid: int): (items: seq<Record>)
    ensures |items| == 3
  {
    [Record(101, "new", uid), Record(102, "paid", uid + 1), Record(103, "shipped", uid)]
  }

  /** `_build_products`: the list assembled by appending. */
  method BuildProducts(uid: int) returns (items: seq<Record>)
    ensures items == Products(uid)
  {
    var other := uid + 1;
    items := [];
    items := items + [Record(1, "My product 1", uid)];
    items := items + [Record(2, "Alien product", other)];
    items := items + [Record(3, "My product 2", uid)];
  }

  /** `_build_orders`: the list assembled by appending. */
  method BuildOrders(uid: int) returns (items: seq<Record>)
    ensures items == Orders(uid)
  {
    var other := uid + 1;
    items := [];
    items := items + [Record(101, "new", uid)];
    items := items + [Record(102, "paid", other)];
    items := items + [Record(103, "shipped", uid)];
  }

  /** The records of owner `uid`, in their original order. */
  function Owned(items: seq<Record>, uid: int): (r: seq<Record>)
    ensures forall x :: x in r <==> x in items && x.ownerId == uid
  {
    Filter(items, (x: Record) => x.ownerId == uid)
  }

  /** Owned records of a prefix, extended by one record. */
  lemma OwnedSnoc(items: seq<Record>, x: Record, uid: int)
    ensures Owned(items + [x], uid) == Owned(items, uid) + (if x.ownerId == uid then [x] else [])
  {
    FilterSnoc(items, x, (y: Record) => y.ownerId == uid);
  }

  /** The shared body of `list_products` and `list_orders`: every record with the
      blanket read flag; Forbidden without even the own-scope read; otherwise the
      caller's records, picked out by a loop. Whatever is returned is readable. */
  method ListRecords(t: Tables, user: User, resource: string, items: seq<Record>) returns (r: Result<seq<Record>>)
    ensures HasAllPermission(t, user, resource, Read) ==> r == Ok(items)
    ensures !HasAllPermission(t, user, resource, Read) && !HasPermission(t, user, resource, Read, Some(user.id)) ==>
      r == Err(Forbidden)
    ensures !HasAllPermission(t, user, resource, Read) && HasPermission(t, user, resource, Read, Some(user.id)) ==>
      r == Ok(Owned(items, user.id))
    ensures r.Err? ==> r.error == Forbidden
    ensures r.Ok? ==> forall x :: x in r.value ==> x in items && HasPermission(t, user, resource, Read, Some(x.ownerId))
  {
    if HasAllPermission(t, user, resource, Read) {
      AllPermissionIsUnowned(t, user, resource, Read);
      forall x | x in items ensures HasPermission(t, user, resource, Read, Some(x.ownerId)) {
        UnownedIsStrictest(t, user, resource, Read, Some(x.ownerId));
      }
      return Ok(items);
    }
    if !HasPermission(t, user, resource, Read, Some(user.id)) {
      return Err(Forbidden);
    }
    var result: seq<Record> := [];
    var i := 0;
    while i < |items|
      invariant 0 <= i <= |items|
      invariant result == Owned(items[..i], user.id)
    {
      OwnedSnoc(items[..i], items[i], user.id);
      assert items[..i + 1] == items[..i] + [items[i]];
      if items[i].ownerId == user.id {
        result := result + [items[i]];
      }
      i := i + 1;
    }
    assert items[..i] == items;
    r := Ok(result);
  }

  /** `list_products`. */
  method ListProducts(t: Tables, user: User) returns (r: Result<seq<Record>>)
    ensures HasAllPermission(t, user, "products", Read) ==> r == Ok(Products(user.id))
    ensures !HasAllPermission(t, user, "products", Read) && !HasPermission(t, user, "products", Read, Some(user.id)) ==>
      r == Err(Forbidden)
    ensures !HasAllPermission(t, user, "products", Read) && HasPermission(t, user, "products", Read, Some(user.id)) ==>
      r == Ok(Owned(Products(user.id), user.id))
  {
    var items := BuildProducts(user.id);
    r := ListRecords(t, user, "products", items);
  }

  /** `list_orders`. */
  method ListOrders(t: Tables, user: User) returns (r: Result<seq<Record>>)
    ensures HasAllPermission(t, user, "orders", Read) ==> r == Ok(Orders(user.id))
    ensures !HasAllPermission(t, user, "orders", Read) && !HasPermission(t, user, "orders", Read, Some(user.id)) ==>
      r == Err(Forbidden)
    ensures !HasAllPermission(t, user, "orders", Read) && HasPermission(t, user, "orders", Read, Some(user.id)) ==>
      r == Ok(Owned(Orders(user.id), user.id))
  {
    var items := BuildOrders(user.id);
    r := ListRecords(t, user, "orders", items);
  }

  /** With the own-scope flag only, the caller sees products 1 and 3. */
  lemma {:induction false} OwnedProducts(uid: int)
    ensures Owned(Products(uid), uid) == [Record(1, "My product 1", uid), Record(3, "My product 2", uid)]
  {
    OwnedOfThree(Record(1, "My product 1", uid), Record(2, "Alien product", uid + 1), Record(3, "My product 2", uid), uid);
  }

  /** With the own-scope flag only, the caller sees orders 101 and 103. */
  lemma {:induction false} OwnedOrders(uid: int)
    ensures Owned(Orders(uid), uid) == [Record(101, "new", uid), Record(103, "shipped", uid)]
  {
    OwnedOfThree(Record(101, "new", uid), Record(102, "paid", uid + 1), Record(103, "shipped", uid), uid);
  }

  /** Of three records where only the middle one belongs to someone else, the
      caller owns the outer two. */
  lemma {:induction false} OwnedOfThree(x: Record, y: Record, z: Record, uid: int)
    requires x.ownerId == uid && y.ownerId != uid && z.ownerId == uid
    ensures Owned([x, y, z], uid) == [x, z]
  {
    OwnedPair(x, y, uid);
    OwnedSnoc([x, y], z, uid);
    assert [x, y] + [z] == [x, y, z];
    assert Owned([x, y], uid) + [z] == [x, z];
  }

  /** Of two records where only the second belongs to someone else, the caller owns the first. */
  lemma {:induction false} OwnedPair(x: Record, y: Record, uid: int)
    requires x.ownerId == uid && y.ownerId != uid
    ensures Owned([x, y], uid) == [x]
  {
    OwnedSnoc([], x, uid);
    assert [] + [x] == [x];
    OwnedSnoc([x], y, uid);
    assert [x] + [y] == [x, y];
  }

  /** The position of the first record with the id. */
  function RecordIndex(items: seq<Record>, id: int): (r: Option<nat>)
    ensures r.Some? ==> r.value < |items| && items[r.value].id == id
    ensures r.Some? ==> forall k :: 0 <= k < r.value ==> items[k].id != id
    ensures r.None? <==> forall k :: 0 <= k < |items| ==> items[k].id != id
  {
    FirstIndex(items, (x: Record) => x.id == id)
  }

  /** `patch_product`: NotFound for an id outside the list, decided before any
      rule is consulted; then Forbidden unless the evaluator allows the update on
      the record's owner; otherwise the record with the new title. */
  method PatchProduct(t: Tables, user: User, productId: int, title: string) returns (r: Result<Record>)
    ensures RecordIndex(Products(user.id), productId).None? ==> r == Err(NotFound)
    ensures RecordIndex(Products(user.id), productId).Some? ==>
      var found := Products(user.id)[RecordIndex(Products(user.id), productId).value];
      && (HasPermission(t, user, "products", Update, Some(found.ownerId)) ==> r == Ok(found.(caption := title)))
      && (!HasPermission(t, user, "products", Update, Some(found.ownerId)) ==> r == Err(Forbidden))
    ensures r.Ok? ==>
      r.value.id == productId && r.value.caption == title && HasPermission(t, user, "products", Update, Some(r.value.ownerId))
  {
    var items := BuildProducts(user.id);
    var found: Option<Record> := None;
    var i := 0;
    while i < |items|
      invariant 0 <= i <= |items| && found == None
      invariant forall k :: 0 <= k < i ==> items[k].id != productId
    {
      if items[i].id == productId {
        found := Some(items[i]);
        break;
      }
      i := i + 1;
    }
    if found.None? {
      return Err(NotFound);
    }
    var item := found.value;
    if !HasPermission(t, user, "products", Update, Some(item.ownerId)) {
      return Err(Forbidden);
    }
    r := Ok(item.(caption := title));
  }

  /** Product 2 belongs to someone else: patching it needs the blanket update flag,
      while products 1 and 3 also yield to the own-scope flag. */
  lemma PatchNeedsScope(t: Tables, user: User)
    ensures HasPermission(t, user, "products", Update, Some(Products(user.id)[1].ownerId))
         == HasAllPermission(t, user, "products", Update)
    ensures HasPermission(t, user, "products", Update, Some(Products(user.id)[0].ownerId))
         == HasPermission(t, user, "products", Update, Some(user.id))
  {
    NotOwnerNeedsAll(t, user, "products", Update, Some(user.id + 1));
  }
}
