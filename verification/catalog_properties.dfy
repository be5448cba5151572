/**
  Properties of the mutating operations and of the listing: which check
  decides the error, what a successful call changes and what it leaves alone,
  and the round trips between operations.
 */
module CatalogProperties {
  import opened Wrappers
  import opened JsValues
  import opened Records
  import opened Selection
  import opened Shop
  import opened Invariants

  /**
    Adding checks, in order: a missing field, a non-number price or quantity,
    a negative one, a used id. The first failing check is the error reported.
   */
  lemma AddSweetErrors(store: Store, id: JsValue, name: JsValue, category: JsValue, price: JsValue, quantity: JsValue)
    ensures var r := AddSweet(store, id, name, category, price, quantity);
      var given := AllFieldsGiven(id, name, category, price, quantity);
      var numbers := price.Num? && quantity.Num?;
      && (r.out == Failure(MissingFields) <==> !given)
      && (r.out == Failure(PriceOrQuantityNotNumber) <==> given && !numbers)
      && (r.out == Failure(NegativePriceOrQuantity) <==> given && numbers && (price.n < 0 || quantity.n < 0))
      && (r.out == Failure(DuplicateId) <==> given && numbers && price.n >= 0 && quantity.n >= 0 && HasId(store, id))
  {
  }

  /** Deleting checks, in order: null or undefined, not a number, not positive, not found. */
  lemma DeleteSweetErrors(store: Store, id: JsValue)
    ensures var r := DeleteSweet(store, id);
      && (r.out == Failure(IdMissing) <==> IsNullish(id))
      && (r.out == Failure(IdNotNumber) <==> !IsNullish(id) && !id.Num?)
      && (r.out == Failure(IdNotPositive) <==> id.Num? && id.n <= 0)
      && (id.Num? && id.n > 0 && !HasId(store, id) ==> r.out == Failure(NotFound(id.n)))
  {
  }

  /**
    Purchasing checks, in order: the id, the amount, the record's existence,
    then the stock. Asking for more than the stock is refused, reporting the
    record's name, what is available and what was requested; it is never clamped.
   */
  lemma PurchaseSweetErrors(store: Store, id: JsValue, amount: JsValue)
    ensures var r := PurchaseSweet(store, id, amount);
      && (!IsPositiveNumber(id) ==> r.out == Failure(IdNotPositive))
      && (IsPositiveNumber(id) && !IsPositiveNumber(amount) ==> r.out == Failure(PurchaseAmountInvalid))
      && (IsPositiveNumber(id) && IsPositiveNumber(amount) && !HasId(store, id) ==> r.out == Failure(NotFound(id.n)))
      && forall i :: IsPositiveNumber(id) && IsPositiveNumber(amount) && FirstWithId(store, id, i) && store[i].quantity < amount.n ==>
           r == Step(store, Failure(InsufficientStock(store[i].name, store[i].quantity, amount.n)))
  {
  }

  /** Restocking checks, in order: the id, the amount, the record's existence; nothing else can fail. */
  lemma RestockSweetErrors(store: Store, id: JsValue, amount: JsValue)
    ensures var r := RestockSweet(store, id, amount);
      && (!IsPositiveNumber(id) ==> r.out == Failure(IdNotPositive))
      && (IsPositiveNumber(id) && !IsPositiveNumber(amount) ==> r.out == Failure(RestockAmountInvalid))
      && (IsPositiveNumber(id) && IsPositiveNumber(amount) && !HasId(store, id) ==> r.out == Failure(NotFound(id.n)))
  {
  }

  /** A purchase changes the quantity of the record with that id by exactly the amount and nothing else. */
  lemma PurchaseChangesOnlyThatRecord(store: Store, id: JsValue, amount: JsValue)
    requires UniqueIds(store)
    requires PurchaseSweet(store, id, amount).out.Success?
    ensures var s := PurchaseSweet(store, id, amount).store;
      && |s| == |store|
      && forall j :: 0 <= j < |store| ==>
           s[j] == (if store[j].id == id then store[j].(quantity := store[j].quantity - amount.n) else store[j])
  {
  }

  /** A restock changes the quantity of the record with that id by exactly the amount and nothing else. */
  lemma RestockChangesOnlyThatRecord(store: Store, id: JsValue, amount: JsValue)
    requires UniqueIds(store)
    requires RestockSweet(store, id, amount).out.Success?
    ensures var s := RestockSweet(store, id, amount).store;
      && |s| == |store|
      && forall j :: 0 <= j < |store| ==>
           s[j] == (if store[j].id == id then store[j].(quantity := store[j].quantity + amount.n) else store[j])
  {
  }

  /** Changing one record's quantity does not move any id's first position. */
  lemma {:induction false} FindFromIgnoresQuantity(store: Store, i: nat, q: int, id: JsValue, from: nat)
    requires i < |store| && from <= |store|
    ensures FindFrom(store[i := store[i].(quantity := q)], id, from) == FindFrom(store, id, from)
    decreases |store| - from
  {
    if from < |store| {
      assert store[i := store[i].(quantity := q)][from].id == store[from].id;
      FindFromIgnoresQuantity(store, i, q, id, from + 1);
    }
  }

  /** Changing one record's quantity does not move any id's first position. */
  lemma FindIndexIgnoresQuantity(store: Store, i: nat, q: int, id: JsValue)
    requires i < |store|
    ensures FindIndex(store[i := store[i].(quantity := q)], id) == FindIndex(store, id)
  {
    FindFromIgnoresQuantity(store, i, q, id, 0);
  }

  /** A purchase that passes its checks at position `k`. */
  lemma PurchaseAt(s: Store, id: JsValue, n: JsValue, k: nat)
    requires IsPositiveNumber(id) && IsPositiveNumber(n)
    requires FindIndex(s, id) == Some(k) && n.n <= s[k].quantity
    ensures PurchaseSweet(s, id, n) ==
      Step(s[k := s[k].(quantity := s[k].quantity - n.n)], Success(s[k].(quantity := s[k].quantity - n.n)))
  {
    var r := PurchaseSweet(s, id, n);
    assert FirstWithId(s, id, k) && n.n <= s[k].quantity;
    assert r.out.Success?;
    var i :| FirstWithId(s, id, i) && r.out.value == s[i].(quantity := s[i].quantity - n.n) && r.store == s[i := r.out.value];
    FirstWithIdUnique(s, id, i, k);
  }

  /** A restock that finds its record at position `k`. */
  lemma RestockAt(s: Store, id: JsValue, n: JsValue, k: nat)
    requires IsPositiveNumber(id) && IsPositiveNumber(n)
    requires FindIndex(s, id) == Some(k)
    ensures RestockSweet(s, id, n) ==
      Step(s[k := s[k].(quantity := s[k].quantity + n.n)], Success(s[k].(quantity := s[k].quantity + n.n)))
  {
    var r := RestockSweet(s, id, n);
    assert HasId(s, id);
    assert r.out.Success?;
    var i :| FirstWithId(s, id, i) && r.out.value == s[i].(quantity := s[i].quantity + n.n) && r.store == s[i := r.out.value];
    FirstWithIdUnique(s, id, i, k);
  }

  /** Setting a quantity and then setting the old one back restores the catalog. */
  lemma QuantityBack(store: Store, k: nat, q: int)
    requires k < |store|
    ensures var s := store[k := store[k].(quantity := q)];
      s[k := s[k].(quantity := store[k].quantity)] == store
  {
  }

  /** Purchasing `n` from the record at `k` just after it was restocked by `n` gives the old catalog back. */
  lemma PurchaseUndoesRestockAt(store: Store, id: JsValue, n: JsValue, k: nat, v: Sweet, t: Store)
    requires IsPositiveNumber(id) && IsPositiveNumber(n)
    requires FirstWithId(store, id, k) && store[k].quantity >= 0
    requires v == store[k].(quantity := store[k].quantity + n.n) && t == store[k := v]
    ensures PurchaseSweet(t, id, n) == Step(store, Success(store[k]))
  {
    FirstWithIdUnique(store, id, FindIndex(store, id).value, k);
    FindIndexIgnoresQuantity(store, k, v.quantity, id);
    PurchaseAt(t, id, n, k);
    QuantityBack(store, k, v.quantity);
  }

  /** Restocking `n` at the record at `k` just after `n` were bought from it gives the old catalog back. */
  lemma RestockUndoesPurchaseAt(store: Store, id: JsValue, n: JsValue, k: nat, v: Sweet, t: Store)
    requires IsPositiveNumber(id) && IsPositiveNumber(n)
    requires FirstWithId(store, id, k)
    requires v == store[k].(quantity := store[k].quantity - n.n) && t == store[k := v]
    ensures RestockSweet(t, id, n) == Step(store, Success(store[k]))
  {
    FirstWithIdUnique(store, id, FindIndex(store, id).value, k);
    FindIndexIgnoresQuantity(store, k, v.quantity, id);
    RestockAt(t, id, n, k);
    QuantityBack(store, k, v.quantity);
  }

  /** Restocking `n` and then purchasing `n` of the same record restores the catalog. */
  lemma RestockThenPurchase(store: Store, id: JsValue, n: JsValue)
    requires NonNegative(store)
    requires IsPositiveNumber(id) && IsPositiveNumber(n) && HasId(store, id)
    ensures var p := PurchaseSweet(RestockSweet(store, id, n).store, id, n);
      p.out.Success? && p.store == store
  {
    var r := RestockSweet(store, id, n);
    var k :| FirstWithId(store, id, k)
      && r.out.value == store[k].(quantity := store[k].quantity + n.n)
      && r.store == store[k := r.out.value];
    PurchaseUndoesRestockAt(store, id, n, k, r.out.value, r.store);
  }

  /** Purchasing `n` and then restocking `n` of the same record restores the catalog. */
  lemma PurchaseThenRestock(store: Store, id: JsValue, n: JsValue)
    requires IsPositiveNumber(id) && IsPositiveNumber(n)
    requires exists k :: FirstWithId(store, id, k) && n.n <= store[k].quantity
    ensures var r := RestockSweet(PurchaseSweet(store, id, n).store, id, n);
      r.out.Success? && r.store == store
  {
    var p := PurchaseSweet(store, id, n);
    var k :| FirstWithId(store, id, k)
      && p.out.value == store[k].(quantity := store[k].quantity - n.n)
      && p.store == store[k := p.out.value];
    RestockUndoesPurchaseAt(store, id, n, k, p.out.value, p.store);
  }

  /** Deleting a record just added under a positive numeric id returns it and restores the catalog. */
  lemma AddThenDelete(store: Store, id: JsValue, name: JsValue, category: JsValue, price: JsValue, quantity: JsValue)
    requires AddSweet(store, id, name, category, price, quantity).out.Success?
    requires IsPositiveNumber(id)
    ensures var a := AddSweet(store, id, name, category, price, quantity);
      DeleteSweet(a.store, id) == Step(store, a.out)
  {
    var a := AddSweet(store, id, name, category, price, quantity);
    var s := a.store;
    assert FirstWithId(s, id, |store|) by {
      assert s[|store|] == a.out.value;
      forall j | 0 <= j < |store|
        ensures s[j].id != id
      {
        assert s[j] == store[j];
      }
    }
    var d := DeleteSweet(s, id);
    var i :| FirstWithId(s, id, i) && d.out.value == s[i] && d.store == s[..i] + s[i + 1..];
    FirstWithIdUnique(s, id, i, |store|);
    assert d.store == store;
  }

  /**
    With unique ids a successful delete removes every trace of the id and
    keeps every other record; a second delete of the same id is not found.
   */
  lemma DeleteRemovesId(store: Store, id: JsValue)
    requires UniqueIds(store)
    requires DeleteSweet(store, id).out.Success?
    ensures var s := DeleteSweet(store, id).store;
      && !HasId(s, id)
      && (forall x :: x in s <==> x in store && x.id != id)
      && DeleteSweet(s, id) == Step(s, Failure(NotFound(id.n)))
  {
  }

  /** The listing holds every occurrence of an in-stock record and nothing else. */
  lemma ListCounts(store: Store)
    ensures forall x :: multiset(GetSweets(store))[x] == if x.quantity > 0 then multiset(store)[x] else 0
  {
    KeepCounts(store, InStock);
  }

  /** A successful add extends the listing at its end exactly when the new record is in stock. */
  lemma ListAfterAdd(store: Store, id: JsValue, name: JsValue, category: JsValue, price: JsValue, quantity: JsValue)
    requires AddSweet(store, id, name, category, price, quantity).out.Success?
    ensures var a := AddSweet(store, id, name, category, price, quantity);
      GetSweets(a.store) == GetSweets(store) + (if a.out.value.quantity > 0 then [a.out.value] else [])
  {
    var a := AddSweet(store, id, name, category, price, quantity);
    KeepConcat(store, [a.out.value], InStock);
  }

  /** After a successful restock the updated record is listed, whatever its stock was before. */
  lemma ListAfterRestock(store: Store, id: JsValue, amount: JsValue)
    requires NonNegative(store)
    requires IsPositiveNumber(id) && IsPositiveNumber(amount) && HasId(store, id)
    ensures var r := RestockSweet(store, id, amount);
      r.out.value in GetSweets(r.store) && r.out.value.id == id
  {
    var r := RestockSweet(store, id, amount);
    var i :| FirstWithId(store, id, i)
      && r.out.value == store[i].(quantity := store[i].quantity + amount.n)
      && r.store == store[i := r.out.value];
    assert r.store[i] == r.out.value;
  }

  /**
    With unique ids, deleting a record drops it from the listing and keeps
    every other listed record, in the same order: the listing loses at most
    the deleted record's own entry.
   */
  lemma ListAfterDelete(store: Store, id: JsValue)
    requires UniqueIds(store)
    requires DeleteSweet(store, id).out.Success?
    ensures forall x :: x in GetSweets(DeleteSweet(store, id).store) <==> x in GetSweets(store) && x.id != id
    ensures var i := FindIndex(store, id).value;
      && GetSweets(DeleteSweet(store, id).store) == GetSweets(store[..i]) + GetSweets(store[i + 1..])
      && GetSweets(store) == GetSweets(store[..i]) + GetSweets([store[i]]) + GetSweets(store[i + 1..])
  {
    var i := FindIndex(store, id).value;
    assert store == store[..i] + [store[i]] + store[i + 1..];
    KeepConcat(store[..i] + [store[i]], store[i + 1..], InStock);
    KeepConcat(store[..i], [store[i]], InStock);
    KeepConcat(store[..i], store[i + 1..], InStock);
  }
}
