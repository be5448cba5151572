/**
  Filtering records: the `Array.prototype.filter` calls of listing and
  searching, with their tests written as data so that proofs can combine them.
  Also the search criteria and the selection they describe.
 */
module Selection {
  import opened Wrappers
  import opened JsValues
  import opened Text
  import opened Records

  /** The two text fields a search can filter on. */
  datatype Field = Name | Category

  function FieldOf(x: Sweet, f: Field): JsValue {
    match f
    case Name => x.name
    case Category => x.category
  }

  /**
    The options object of a search; an option the caller leaves out is
    `Undefined`, which the search treats exactly like `Null`.
   */
  datatype Criteria = Criteria(name: JsValue, category: JsValue, minPrice: JsValue, maxPrice: JsValue)

  /** `{}`: no option given. */
  const NoCriteria := Criteria(Undefined, Undefined, Undefined, Undefined)

  /** A text option constrains a field only when it is a non-empty string. */
  predicate TextOptionHolds(query: JsValue, v: JsValue) {
    query.Str? && query.s != "" ==> v.Str? && Contains(Lower(v.s), Lower(query.s))
  }

  /**
    The records a search with criteria `c` is meant to return: in stock, every
    text option contained (ignoring case) in its field, the price within every
    numeric bound given.
   */
  predicate Matches(c: Criteria, x: Sweet) {
    && x.quantity > 0
    && TextOptionHolds(c.name, x.name)
    && TextOptionHolds(c.category, x.category)
    && (c.minPrice.Num? ==> x.price >= c.minPrice.n)
    && (c.maxPrice.Num? ==> x.price <= c.maxPrice.n)
  }

  /** The tests the catalog filters by; `Matching(c)` is the whole selection of a search. */
  datatype Test =
    | InStock
    | TextHas(field: Field, query: string)
    | PriceIn(lo: Option<int>, hi: Option<int>)
    | Matching(c: Criteria)

  predicate Passes(x: Sweet, t: Test) {
    match t
    case InStock => x.quantity > 0
    case TextHas(f, q) => FieldOf(x, f).Str? && Contains(Lower(FieldOf(x, f).s), Lower(q))
    case PriceIn(lo, hi) => (lo.Some? ==> x.price >= lo.value) && (hi.Some? ==> x.price <= hi.value)
    case Matching(c) => Matches(c, x)
  }

  /** `a` can be obtained from `b` by deleting elements: same relative order. */
  predicate IsSubsequence<T(==)>(a: seq<T>, b: seq<T>)
    decreases |b|
  {
    if a == [] then true
    else if b == [] then false
    else if a[0] == b[0] then IsSubsequence(a[1..], b[1..])
    else IsSubsequence(a, b[1..])
  }

  /** `s.filter(x => Passes(x, t))`: exactly the passing records, in their original order. */
  function Keep(s: Store, t: Test): (r: Store)
    ensures forall x :: x in r <==> x in s && Passes(x, t)
    ensures IsSubsequence(r, s)
    ensures |r| <= |s|
    decreases |s|
  {
    if s == [] then []
    else if Passes(s[0], t) then [s[0]] + Keep(s[1..], t)
    else Keep(s[1..], t)
  }

  /** Filtering keeps every occurrence of a passing record and none of a failing one. */
  lemma {:induction false} KeepCounts(s: Store, t: Test)
    ensures forall x :: multiset(Keep(s, t))[x] == if Passes(x, t) then multiset(s)[x] else 0
    decreases |s|
  {
    if s != [] {
      KeepCounts(s[1..], t);
      assert s == [s[0]] + s[1..];
    }
  }

  /** Filtering by `a` and then by `b` is filtering once by their conjunction `t`. */
  lemma {:induction false} KeepTwice(s: Store, a: Test, b: Test, t: Test)
    requires forall x :: x in s ==> (Passes(x, t) <==> Passes(x, a) && Passes(x, b))
    ensures Keep(Keep(s, a), b) == Keep(s, t)
    decreases |s|
  {
    if s != [] {
      KeepTwice(s[1..], a, b, t);
      if Passes(s[0], a) {
        assert Keep(s, a) == [s[0]] + Keep(s[1..], a);
        assert Keep(s, a)[1..] == Keep(s[1..], a);
      }
    }
  }

  /** Two tests that agree on every record of `s` keep the same records. */
  lemma {:induction false} KeepAgreeing(s: Store, a: Test, b: Test)
    requires forall x :: x in s ==> (Passes(x, a) <==> Passes(x, b))
    ensures Keep(s, a) == Keep(s, b)
    decreases |s|
  {
    if s != [] {
      KeepAgreeing(s[1..], a, b);
    }
  }

  /** Filtering distributes over concatenation: order across the two parts is preserved. */
  lemma {:induction false} KeepConcat(a: Store, b: Store, t: Test)
    ensures Keep(a + b, t) == Keep(a, t) + Keep(b, t)
    decreases |a|
  {
    if a == [] {
      assert a + b == b;
    } else {
      var ab := a + b;
      assert ab[0] == a[0];
      assert ab[1..] == a[1..] + b;
      KeepConcat(a[1..], b, t);
      if Passes(a[0], t) {
        calc {
          Keep(ab, t);
          [a[0]] + Keep(a[1..] + b, t);
          [a[0]] + (Keep(a[1..], t) + Keep(b, t));
          ([a[0]] + Keep(a[1..], t)) + Keep(b, t);
        }
      }
    }
  }

  /** A test no record of `s` passes keeps nothing. */
  lemma KeepNothing(s: Store, t: Test)
    requires forall x :: x in s ==> !Passes(x, t)
    ensures Keep(s, t) == []
  {
  }
}
