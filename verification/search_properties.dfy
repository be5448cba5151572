/**
  What a search returns, stated independently of the order in which the
  source applies its filters: the records of the whole catalog that match
  every given option, in catalog order; and when it raises instead.
 */
module SearchProperties {
  import opened Wrappers
  import opened JsValues
  import opened Text
  import opened Records
  import opened Selection
  import opened Shop

  /** Every stored name and category is a string, as the catalog's callers intend. */
  predicate TextFields(store: Store) {
    forall x :: x in store ==> x.name.Str? && x.category.Str?
  }

  /** Each option is absent or of the kind the search accepts. */
  predicate WellTyped(c: Criteria) {
    && (IsNullish(c.name) || c.name.Str?)
    && (IsNullish(c.category) || c.category.Str?)
    && (IsNullish(c.minPrice) || c.minPrice.Num?)
    && (IsNullish(c.maxPrice) || c.maxPrice.Num?)
  }

  /** A successful text stage over the selection of `c` is the selection of `c'`, which adds that option. */
  lemma TextStageSelects(store: Store, c: Criteria, c': Criteria, query: JsValue, f: Field, notText: Error, r: Store)
    requires TextStage(Keep(store, Matching(c)), query, f, notText) == Success(r)
    requires forall x :: Matches(c', x) <==> Matches(c, x) && TextOptionHolds(query, FieldOf(x, f))
    ensures r == Keep(store, Matching(c'))
  {
    if IsNullish(query) || query.s == "" {
      KeepAgreeing(store, Matching(c), Matching(c'));
    } else {
      KeepTwice(store, Matching(c), TextHas(f, query.s), Matching(c'));
    }
  }

  /** A successful price stage over the selection of `c` is the selection of `c'`, which adds the bounds. */
  lemma PriceStageSelects(store: Store, c: Criteria, c': Criteria, minPrice: JsValue, maxPrice: JsValue, r: Store)
    requires PriceStage(Keep(store, Matching(c)), minPrice, maxPrice) == Success(r)
    requires forall x :: Matches(c', x) <==>
      Matches(c, x) && (minPrice.Num? ==> x.price >= minPrice.n) && (maxPrice.Num? ==> x.price <= maxPrice.n)
    ensures r == Keep(store, Matching(c'))
  {
    var t := PriceIn(Bound(minPrice), Bound(maxPrice));
    assert forall x :: Matches(c', x) <==> Matches(c, x) && Passes(x, t);
    if IsNullish(minPrice) && IsNullish(maxPrice) {
      KeepAgreeing(store, Matching(c), Matching(c'));
    } else if minPrice.Num? && maxPrice.Num? && minPrice.n > maxPrice.n {
      KeepNothing(store, Matching(c'));
    } else {
      PriceStageFilters(Keep(store, Matching(c)), minPrice, maxPrice, r);
      KeepTwice(store, Matching(c), t, Matching(c'));
    }
  }

  /** Past the type checks and outside an empty range, a price stage is one filter by both bounds. */
  lemma PriceStageFilters(results: Store, minPrice: JsValue, maxPrice: JsValue, r: Store)
    requires PriceStage(results, minPrice, maxPrice) == Success(r)
    requires !(IsNullish(minPrice) && IsNullish(maxPrice))
    requires !(minPrice.Num? && maxPrice.Num? && minPrice.n > maxPrice.n)
    ensures r == Keep(results, PriceIn(Bound(minPrice), Bound(maxPrice)))
  {
  }

  /**
    A successful search returns exactly the catalog's records that match its
    criteria, in catalog order: the same answer as one filter with all
    options combined. This covers an empty price range, which no price matches.
   */
  lemma SearchSelects(store: Store, criteria: Option<Criteria>)
    requires SearchSweets(store, criteria).Success?
    ensures SearchSweets(store, criteria).value == Keep(store, Matching(Effective(criteria)))
  {
    var c := Effective(criteria);
    var c0 := NoCriteria;
    var c1 := c0.(name := c.name);
    var c2 := c1.(category := c.category);
    assert c2.(minPrice := c.minPrice, maxPrice := c.maxPrice) == c;
    KeepAgreeing(store, InStock, Matching(c0));
    var named := TextStage(GetSweets(store), c.name, Name, NameNotText);
    assert named.Success?;
    TextStageSelects(store, c0, c1, c.name, Name, NameNotText, named.value);
    var categorised := TextStage(named.value, c.category, Category, CategoryNotText);
    assert categorised.Success?;
    TextStageSelects(store, c1, c2, c.category, Category, CategoryNotText, categorised.value);
    PriceStageSelects(store, c2, c, c.minPrice, c.maxPrice, SearchSweets(store, criteria).value);
  }

  /** A text stage over records whose fields are all strings fails only on a mistyped option. */
  lemma TextStageOnText(results: Store, query: JsValue, f: Field, notText: Error)
    requires forall x :: x in results ==> FieldOf(x, f).Str?
    ensures TextStage(results, query, f, notText).Failure? <==> !IsNullish(query) && !query.Str?
  {
  }

  /**
    A search raises exactly when an option has the wrong kind, and the first
    mistyped option in the order name, category, price bounds decides the
    error. Only a non-empty text option reads the stored fields, so only then
    must every stored name and category be a string.
   */
  lemma SearchErrors(store: Store, criteria: Option<Criteria>)
    requires var c := Effective(criteria);
      (c.name.Str? && c.name.s != "") || (c.category.Str? && c.category.s != "") ==> TextFields(store)
    ensures var c := Effective(criteria);
      var r := SearchSweets(store, criteria);
      && (r.Success? <==> WellTyped(c))
      && (!IsNullish(c.name) && !c.name.Str? ==> r == Failure(NameNotText))
      && ((IsNullish(c.name) || c.name.Str?) && !IsNullish(c.category) && !c.category.Str? ==>
            r == Failure(CategoryNotText))
      && ((IsNullish(c.name) || c.name.Str?) && (IsNullish(c.category) || c.category.Str?) && !WellTyped(c) ==>
            r == Failure(PriceBoundNotNumber))
  {
  }

  /** With no criteria, or an empty options object, a search is the plain listing. */
  lemma SearchWithoutCriteria(store: Store)
    ensures SearchSweets(store, None) == Success(GetSweets(store))
    ensures SearchSweets(store, Some(NoCriteria)) == Success(GetSweets(store))
  {
  }

  /**
    Both bounds numbers with `minPrice > maxPrice`: an empty answer and no
    error, once the text options have passed. A text option that is absent or
    empty passes over any catalog; a non-empty one passes when every stored
    name and category is a string.
   */
  lemma SearchEmptyRange(store: Store, c: Criteria)
    requires IsNullish(c.name) || c.name == Str("") || (c.name.Str? && TextFields(store))
    requires IsNullish(c.category) || c.category == Str("") || (c.category.Str? && TextFields(store))
    requires c.minPrice.Num? && c.maxPrice.Num? && c.minPrice.n > c.maxPrice.n
    ensures SearchSweets(store, Some(c)) == Success([])
  {
  }

  /** Two name queries that lower-case alike give the same answer. */
  lemma SearchIgnoresCase(store: Store, c: Criteria, q1: string, q2: string)
    requires Lower(q1) == Lower(q2)
    ensures SearchSweets(store, Some(c.(name := Str(q1)))) == SearchSweets(store, Some(c.(name := Str(q2))))
  {
    var listed := GetSweets(store);
    assert q1 == "" <==> q2 == "" by {
      assert |Lower(q1)| == |q1| && |Lower(q2)| == |q2|;
    }
    forall x | x in listed
      ensures Passes(x, TextHas(Name, q1)) <==> Passes(x, TextHas(Name, q2))
    {
    }
    KeepAgreeing(listed, TextHas(Name, q1), TextHas(Name, q2));
    assert TextStage(listed, Str(q1), Name, NameNotText) == TextStage(listed, Str(q2), Name, NameNotText);
  }

  /** An in-stock record is found by its own name, written in any letter case. */
  lemma SearchFindsOwnName(store: Store, x: Sweet, q: string)
    requires forall y :: y in store && y.quantity > 0 ==> y.name.Str?
    requires x in store && x.quantity > 0
    requires x.name.Str? && Lower(q) == Lower(x.name.s)
    ensures SearchSweets(store, Some(NoCriteria.(name := Str(q)))) == Success(Keep(store, Matching(NoCriteria.(name := Str(q)))))
    ensures x in SearchSweets(store, Some(NoCriteria.(name := Str(q)))).value
  {
    var c := NoCriteria.(name := Str(q));
    assert SearchSweets(store, Some(c)).Success?;
    SearchSelects(store, Some(c));
    ContainsSelf(Lower(q));
    assert Matches(c, x);
  }

  /**
    The catalog accepts a truthy non-string name, and a later search by name
    then raises while lower-casing it.
   */
  lemma SearchFailsOnStoredNumberName(store: Store, x: Sweet, q: string)
    requires x in store && x.quantity > 0 && !x.name.Str?
    requires q != ""
    ensures SearchSweets(store, Some(NoCriteria.(name := Str(q)))) == Failure(StoredFieldNotText)
  {
  }
}
