/**
  The catalog's records and the lookup by id that every operation shares
  (`find` / `findIndex` with `sweet.id === id`).
 */
module Records {
  import opened Wrappers
  import opened JsValues

  /**
    One catalog entry. `id`, `name` and `category` are stored exactly as the
    caller passed them (adding checks only that they are truthy); price and
    quantity have passed the number check, so they are plain integers.
   */
  datatype Sweet = Sweet(id: JsValue, name: JsValue, category: JsValue, price: int, quantity: int)

  /** The catalog: records in insertion order. */
  type Store = seq<Sweet>

  /** Some record carries `id` (strict equality on primitives is value equality). */
  predicate HasId(store: Store, id: JsValue) {
    exists i :: 0 <= i < |store| && store[i].id == id
  }

  /** `i` is the first position whose record carries `id`: the one `find` and `findIndex` return. */
  predicate FirstWithId(store: Store, id: JsValue, i: int) {
    && 0 <= i < |store|
    && store[i].id == id
    && forall j :: 0 <= j < i ==> store[j].id != id
  }

  /** The scan behind `findIndex`, from position `from` onwards. */
  function FindFrom(store: Store, id: JsValue, from: nat): (r: Option<nat>)
    requires from <= |store|
    ensures r.Some? ==> from <= r.value < |store| && store[r.value].id == id
    ensures r.Some? ==> forall j :: from <= j < r.value ==> store[j].id != id
    ensures r.None? <==> forall j :: from <= j < |store| ==> store[j].id != id
    decreases |store| - from
  {
    if from == |store| then None
    else if store[from].id == id then Some(from)
    else FindFrom(store, id, from + 1)
  }

  /** `findIndex(sweet => sweet.id === id)`, with `None` for -1. */
  function FindIndex(store: Store, id: JsValue): (r: Option<nat>)
    ensures r.Some? ==> FirstWithId(store, id, r.value)
    ensures r.None? <==> !HasId(store, id)
  {
    FindFrom(store, id, 0)
  }

  /** At most one position is the first one carrying a given id. */
  lemma FirstWithIdUnique(store: Store, id: JsValue, i: int, j: int)
    requires FirstWithId(store, id, i) && FirstWithId(store, id, j)
    ensures i == j
  {
  }
}
