/**
  The catalog engine: the six operations of the `SweetShop` class over an
  immutable store. A mutating operation returns the store after the call
  together with its outcome; a call that raises leaves the store as it was.
 */
module Shop {
  import opened Wrappers
  import opened JsValues
  import opened Records
  import opened Selection

  /** One constructor per distinct error the catalog raises. */
  datatype Error =
    | MissingFields                     // 'All fields are required.'
    | PriceOrQuantityNotNumber          // 'Price and quantity must be numbers.'
    | NegativePriceOrQuantity           // 'Price and quantity cannot be negative.'
    | DuplicateId                       // 'Sweet with this ID already exists.'
    | IdMissing                         // 'Sweet ID cannot be null or undefined.'
    | IdNotNumber                       // 'Sweet ID must be a number.'
    | IdNotPositive                     // 'Sweet ID must be a positive number.'
    | NotFound(id: int)                 // 'Sweet with ID <id> not found.'
    | NameNotText                       // 'Search criteria: Name must be a string.'
    | CategoryNotText                   // 'Search criteria: Category must be a string.'
    | PriceBoundNotNumber               // 'Price range values must be numbers.'
    | PurchaseAmountInvalid             // 'Purchase quantity must be a positive number.'
    | RestockAmountInvalid              // 'Restock quantity must be a positive number.'
    | InsufficientStock(name: JsValue, available: int, requested: int)
    | StoredFieldNotText                // a stored name or category has no toLowerCase

  /** The store after a call and what the call returned or raised. */
  datatype Step<T> = Step(store: Store, out: Result<T, Error>)

  /** All of id, name, category truthy and price, quantity not null or undefined. */
  predicate AllFieldsGiven(id: JsValue, name: JsValue, category: JsValue, price: JsValue, quantity: JsValue) {
    Truthy(id) && Truthy(name) && Truthy(category) && !IsNullish(price) && !IsNullish(quantity)
  }

  /** `addSweet`: validate, reject a used id, append the new record and return it. */
  function AddSweet(store: Store, id: JsValue, name: JsValue, category: JsValue, price: JsValue, quantity: JsValue): (r: Step<Sweet>)
    ensures r.out.Failure? ==> r.store == store
    ensures r.out.Success? <==>
      && AllFieldsGiven(id, name, category, price, quantity)
      && price.Num? && quantity.Num? && price.n >= 0 && quantity.n >= 0
      && !HasId(store, id)
    ensures r.out.Success? ==>
      && price.Num? && quantity.Num?
      && r.out.value == Sweet(id, name, category, price.n, quantity.n)
      && r.store == store + [r.out.value]
  {
    if !AllFieldsGiven(id, name, category, price, quantity) then Step(store, Failure(MissingFields))
    else if !price.Num? || !quantity.Num? then Step(store, Failure(PriceOrQuantityNotNumber))
    else if price.n < 0 || quantity.n < 0 then Step(store, Failure(NegativePriceOrQuantity))
    else if FindIndex(store, id).Some? then Step(store, Failure(DuplicateId))
    else
      var sweet := Sweet(id, name, category, price.n, quantity.n);
      Step(store + [sweet], Success(sweet))
  }

  /** `deleteSweet`: validate the id, then splice out the first record carrying it and return it. */
  function DeleteSweet(store: Store, id: JsValue): (r: Step<Sweet>)
    ensures r.out.Failure? ==> r.store == store
    ensures r.out.Success? <==> IsPositiveNumber(id) && HasId(store, id)
    ensures r.out.Success? ==>
      exists i :: FirstWithId(store, id, i) && r.out.value == store[i] && r.store == store[..i] + store[i + 1..]
  {
    if IsNullish(id) then Step(store, Failure(IdMissing))
    else if !id.Num? then Step(store, Failure(IdNotNumber))
    else if id.n <= 0 then Step(store, Failure(IdNotPositive))
    else
      match FindIndex(store, id)
      case None => Step(store, Failure(NotFound(id.n)))
      case Some(i) => Step(store[..i] + store[i + 1..], Success(store[i]))
  }

  /** `getSweets`: the in-stock records, in store order. */
  function GetSweets(store: Store): (r: seq<Sweet>)
    ensures forall x :: x in r <==> x in store && x.quantity > 0
    ensures IsSubsequence(r, store)
  {
    Keep(store, InStock)
  }

  /**
    One text option of a search: null or undefined skips it, a non-string
    raises `notText`, the empty string skips it; otherwise every remaining
    record's field is lower-cased (raising when it is not a string) and must
    contain the lower-cased query.
   */
  function TextStage(results: Store, query: JsValue, f: Field, notText: Error): (r: Result<Store, Error>)
    ensures r.Success? ==> forall x :: x in r.value ==> x in results
    ensures r.Failure? ==> r.error == notText || r.error == StoredFieldNotText
  {
    if IsNullish(query) then Success(results)
    else if !query.Str? then Failure(notText)
    else if query.s == "" then Success(results)
    else if exists i :: 0 <= i < |results| && !FieldOf(results[i], f).Str? then Failure(StoredFieldNotText)
    else Success(Keep(results, TextHas(f, query.s)))
  }

  /** A price bound as the filter uses it, once it has passed the type check: absent unless a number. */
  function Bound(v: JsValue): Option<int> {
    if v.Num? then Some(v.n) else None
  }

  /** The price options of a search: type checks first, then an empty answer for an empty range. */
  function PriceStage(results: Store, minPrice: JsValue, maxPrice: JsValue): (r: Result<Store, Error>)
    ensures r.Success? ==> forall x :: x in r.value ==> x in results
    ensures r.Failure? ==> r.error == PriceBoundNotNumber
  {
    var hasMin := !IsNullish(minPrice);
    var hasMax := !IsNullish(maxPrice);
    if !hasMin && !hasMax then Success(results)
    else if hasMin && !minPrice.Num? then Failure(PriceBoundNotNumber)
    else if hasMax && !maxPrice.Num? then Failure(PriceBoundNotNumber)
    else if hasMin && hasMax && minPrice.n > maxPrice.n then Success([])
    else Success(Keep(results, PriceIn(Bound(minPrice), Bound(maxPrice))))
  }

  /** The criteria a search call works with: `criteria || {}`. */
  function Effective(criteria: Option<Criteria>): Criteria {
    if criteria.Some? then criteria.value else NoCriteria
  }

  /** `searchSweets`: the listing narrowed by name, then category, then price range. */
  function SearchSweets(store: Store, criteria: Option<Criteria>): (r: Result<seq<Sweet>, Error>)
    ensures r.Success? ==> forall x :: x in r.value ==> x in store && x.quantity > 0
  {
    var c := Effective(criteria);
    var named :- TextStage(GetSweets(store), c.name, Name, NameNotText);
    var categorised :- TextStage(named, c.category, Category, CategoryNotText);
    PriceStage(categorised, c.minPrice, c.maxPrice)
  }

  /** `purchaseSweet`: validate, find, refuse more than the stock, then decrement and return a copy. */
  function PurchaseSweet(store: Store, id: JsValue, amount: JsValue): (r: Step<Sweet>)
    ensures r.out.Failure? ==> r.store == store
    ensures r.out.Success? <==>
      && IsPositiveNumber(id) && IsPositiveNumber(amount)
      && exists i :: FirstWithId(store, id, i) && amount.n <= store[i].quantity
    ensures r.out.Success? ==>
      && amount.Num?
      && exists i ::
        && FirstWithId(store, id, i)
        && r.out.value == store[i].(quantity := store[i].quantity - amount.n)
        && r.store == store[i := r.out.value]
  {
    if !IsPositiveNumber(id) then Step(store, Failure(IdNotPositive))
    else if !IsPositiveNumber(amount) then Step(store, Failure(PurchaseAmountInvalid))
    else
      match FindIndex(store, id)
      case None => Step(store, Failure(NotFound(id.n)))
      case Some(i) =>
        var sweet := store[i];
        if sweet.quantity < amount.n then
          Step(store, Failure(InsufficientStock(sweet.name, sweet.quantity, amount.n)))
        else
          var updated := sweet.(quantity := sweet.quantity - amount.n);
          Step(store[i := updated], Success(updated))
  }

  /** `restockSweet`: validate, find, then increment (no upper bound) and return a copy. */
  function RestockSweet(store: Store, id: JsValue, amount: JsValue): (r: Step<Sweet>)
    ensures r.out.Failure? ==> r.store == store
    ensures r.out.Success? <==> IsPositiveNumber(id) && IsPositiveNumber(amount) && HasId(store, id)
    ensures r.out.Success? ==>
      && amount.Num?
      && exists i ::
        && FirstWithId(store, id, i)
        && r.out.value == store[i].(quantity := store[i].quantity + amount.n)
        && r.store == store[i := r.out.value]
  {
    if !IsPositiveNumber(id) then Step(store, Failure(IdNotPositive))
    else if !IsPositiveNumber(amount) then Step(store, Failure(RestockAmountInvalid))
    else
      match FindIndex(store, id)
      case None => Step(store, Failure(NotFound(id.n)))
      case Some(i) =>
        var updated := store[i].(quantity := store[i].quantity + amount.n);
        Step(store[i := updated], Success(updated))
  }
}
