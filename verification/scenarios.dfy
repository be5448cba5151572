/** Concrete call sequences on a fresh catalog, and what they return. */
module Scenarios {
  import opened Wrappers
  import opened JsValues
  import opened Records
  import opened Selection
  import opened Shop
  import opened SearchProperties

  /**
    Add Kaju Katli with 20 in stock, buy 5 (15 left), then ask for 16: refused
    with available 15 and requested 16, and the stock stays at 15.
   */
  lemma PurchaseScenario()
    ensures var added := AddSweet([], Num(101), Str("Kaju Katli"), Str("Nut-Based"), Num(50), Num(20));
      var bought := PurchaseSweet(added.store, Num(101), Num(5));
      var refused := PurchaseSweet(bought.store, Num(101), Num(16));
      && bought.out == Success(Sweet(Num(101), Str("Kaju Katli"), Str("Nut-Based"), 50, 15))
      && refused == Step(bought.store, Failure(InsufficientStock(Str("Kaju Katli"), 15, 16)))
  {
  }

  /**
    A truthy number is accepted as a name; a later search by any non-empty
    name then raises while lower-casing the stored name.
   */
  lemma NumberNameScenario()
    ensures var added := AddSweet([], Num(1), Num(5), Str("Candy"), Num(3), Num(4));
      && added.out.Success?
      && SearchSweets(added.store, Some(NoCriteria.(name := Str("a")))) == Failure(StoredFieldNotText)
  {
  }
}
