/**
  The catalog's state invariant: ids are pairwise distinct and no record has a
  negative price or quantity. Every operation preserves it, so it holds in
  every state reachable from the empty catalog.
 */
module Invariants {
  import opened Wrappers
  import opened JsValues
  import opened Records
  import opened Selection
  import opened Shop

  predicate UniqueIds(store: Store) {
    forall i, j :: 0 <= i < |store| && 0 <= j < |store| && i != j ==> store[i].id != store[j].id
  }

  predicate NonNegative(store: Store) {
    forall i :: 0 <= i < |store| ==> store[i].price >= 0 && store[i].quantity >= 0
  }

  predicate Valid(store: Store) {
    UniqueIds(store) && NonNegative(store)
  }

  /** An add appends only a record with an unused id and non-negative price and quantity. */
  lemma AddPreservesValid(store: Store, id: JsValue, name: JsValue, category: JsValue, price: JsValue, quantity: JsValue)
    requires Valid(store)
    ensures Valid(AddSweet(store, id, name, category, price, quantity).store)
  {
  }

  /** A delete only removes a record. */
  lemma DeletePreservesValid(store: Store, id: JsValue)
    requires Valid(store)
    ensures Valid(DeleteSweet(store, id).store)
  {
  }

  /** A purchase never takes more than the stock, so quantities stay non-negative. */
  lemma PurchasePreservesValid(store: Store, id: JsValue, amount: JsValue)
    requires Valid(store)
    ensures Valid(PurchaseSweet(store, id, amount).store)
  {
  }

  /** A restock only raises a quantity. */
  lemma RestockPreservesValid(store: Store, id: JsValue, amount: JsValue)
    requires Valid(store)
    ensures Valid(RestockSweet(store, id, amount).store)
  {
  }

  /** One call on the catalog, with its arguments as the caller passed them. */
  datatype Call =
    | Add(id: JsValue, name: JsValue, category: JsValue, price: JsValue, quantity: JsValue)
    | Delete(id: JsValue)
    | List
    | Search(criteria: Option<Criteria>)
    | Purchase(id: JsValue, amount: JsValue)
    | Restock(id: JsValue, amount: JsValue)

  /** The store after one call; listing and searching never change it. */
  function Apply(store: Store, call: Call): Store {
    match call
    case Add(id, name, category, price, quantity) => AddSweet(store, id, name, category, price, quantity).store
    case Delete(id) => DeleteSweet(store, id).store
    case List => store
    case Search(_) => store
    case Purchase(id, amount) => PurchaseSweet(store, id, amount).store
    case Restock(id, amount) => RestockSweet(store, id, amount).store
  }

  /** The store after a sequence of calls, first call first. */
  function Run(store: Store, calls: seq<Call>): Store
    decreases |calls|
  {
    if calls == [] then store else Run(Apply(store, calls[0]), calls[1..])
  }

  /** Each single call keeps the invariant. */
  lemma ApplyPreservesValid(store: Store, call: Call)
    requires Valid(store)
    ensures Valid(Apply(store, call))
  {
    match call
    case Add(id, name, category, price, quantity) => AddPreservesValid(store, id, name, category, price, quantity);
    case Delete(id) => DeletePreservesValid(store, id);
    case List =>
    case Search(_) =>
    case Purchase(id, amount) => PurchasePreservesValid(store, id, amount);
    case Restock(id, amount) => RestockPreservesValid(store, id, amount);
  }

  lemma {:induction false} RunPreservesValid(store: Store, calls: seq<Call>)
    requires Valid(store)
    ensures Valid(Run(store, calls))
    decreases |calls|
  {
    if calls != [] {
      ApplyPreservesValid(store, calls[0]);
      RunPreservesValid(Apply(store, calls[0]), calls[1..]);
    }
  }

  /** Every state reachable from the empty catalog satisfies the invariant. */
  lemma ReachableIsValid(calls: seq<Call>)
    ensures Valid(Run([], calls))
  {
    RunPreservesValid([], calls);
  }
}
