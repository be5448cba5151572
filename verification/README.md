# Sweet shop catalog — a Dafny model

This project models the catalog engine of a small sweet-shop inventory manager: the
`SweetShop` class that keeps records `{id, name, category, price, quantity}` in insertion
order and offers six operations: add, delete, list the in-stock records, search, purchase
(decrement stock) and restock (increment stock).

The catalog is an immutable `seq<Sweet>`. Every mutating operation is a pure function from
the store and the caller's arguments to a `Step`, which holds the store after the call and
either the returned record or the error raised. A raising call returns the store it was given.
Arguments are loosely typed in the source, so they are modelled as primitive JavaScript
values (`JsValue`: undefined, null, boolean, integer number, string). This keeps apart the
"missing", "wrong kind" and "out of range" checks, which raise different errors. Each
distinct error message of the source is one constructor of `Shop.Error`.

Modules, in dependency order:

- `Wrappers` (wrappers.dfy): `Option` and `Result`.
- `JsValues` (js_values.dfy): argument values, truthiness, loose `== null`.
- `Text` (text.dfy): ASCII `toLowerCase` and `includes`.
- `Records` (records.dfy): the record, the store, and lookup by id with `===`.
- `Selection` (selection.dfy): the `filter` calls as `Keep(store, test)`, plus the search
  criteria and the selection they describe (`Matches`).
- `Shop` (shop.dfy): the six operations.
- `Invariants` (invariants.dfy): unique ids and non-negative price and quantity are preserved
  by every operation, so they hold in every state reachable from the empty catalog.
- `SearchProperties` (search_properties.dfy): what a search returns and when it raises.
- `CatalogProperties` (catalog_properties.dfy): check order, frame conditions, round trips,
  and the effect of each operation on the listing.
- `Scenarios` (scenarios.dfy): concrete call sequences.

The model follows the code as written:

- Adding only checks that `id`, `name` and `category` are truthy. So a negative or string id,
  or a numeric name, is stored as given, and records keep these three fields as `JsValue`.
- Searching lower-cases each stored name (or category) it filters. A stored non-string name
  therefore makes a later name search raise. This is modelled as `StoredFieldNotText`
  (see `SearchFailsOnStoredNumberName` and `NumberNameScenario`).
- The class throws plain `Error`s whose messages differ, so errors are told apart by message.
- Purchase and restock reject a non-number id with the "positive number" error. Only
  delete has a separate "must be a number" error.

## Model

| member | source | states |
|---|---|---|
| Records.FindFrom | src/SweetShop.js:39 | the scan from a position returns the first later position carrying the id, and none exactly when no later record carries it |
| Records.FindIndex | src/SweetShop.js:39-43 | the index found is the first record whose id is strictly equal to the argument; none is found exactly when no record carries it |
| Selection.Keep | src/SweetShop.js:49-51 | filtering keeps a record iff it passes the test, as a subsequence of the input (relative order preserved) |
| Selection.KeepCounts | src/SweetShop.js:49-51 | filtering keeps every occurrence of a passing record and no occurrence of a failing one |
| Selection.KeepTwice | src/SweetShop.js:64-79 | two successive filters equal one filter by the conjunction of their tests |
| Selection.KeepConcat | src/SweetShop.js:23-24 | filtering distributes over concatenation, so appending a record only appends to a filtered view |
| Text.Lower | src/SweetShop.js:63-65 | lower-casing keeps the length, turns each ASCII upper-case letter into its lower-case counterpart (code point plus 32) and keeps every other character |
| Text.LowerIdempotent | src/SweetShop.js:63-65 | lower-casing an already lower-cased query changes nothing |
| Shop.AddSweet | src/SweetShop.js:6-26 | succeeds iff all fields are given, price and quantity are non-negative numbers and the id is unused; on success the new record is appended at the end and returned; on failure the store is unchanged |
| Shop.DeleteSweet | src/SweetShop.js:28-47 | succeeds iff the id is a positive number carried by some record; on success the first such record is spliced out and returned, the others keep their order; on failure the store is unchanged |
| Shop.GetSweets | src/SweetShop.js:49-51 | lists a record iff its quantity is above zero, in store order |
| Shop.TextStage | src/SweetShop.js:57-81 | a text option keeps a subset of the records and can raise only its own type error or the stored-field error |
| Shop.PriceStage | src/SweetShop.js:83-107 | the price options keep a subset of the records and can raise only the bound type error |
| Shop.SearchSweets | src/SweetShop.js:53-110 | every record a search returns is in the catalog and in stock |
| Shop.PurchaseSweet | src/SweetShop.js:112-136 | succeeds iff id and amount are positive numbers, the id is found and the amount is at most the stock; on success only that record changes, its quantity lowered by the amount, and the updated copy is returned; on failure the store is unchanged |
| Shop.RestockSweet | src/SweetShop.js:138-157 | succeeds iff id and amount are positive numbers and the id is found; on success only that record changes, its quantity raised by the amount; on failure the store is unchanged |
| Invariants.AddPreservesValid | src/SweetShop.js:15-24 | adding keeps ids distinct and price and quantity non-negative |
| Invariants.DeletePreservesValid | src/SweetShop.js:39-46 | deleting keeps the invariant |
| Invariants.PurchasePreservesValid | src/SweetShop.js:129-133 | purchasing keeps the invariant: stock never goes negative |
| Invariants.RestockPreservesValid | src/SweetShop.js:149-156 | restocking keeps the invariant |
| Invariants.RunPreservesValid | src/SweetShop.js:6-157 | any sequence of calls on a valid catalog leaves it valid |
| Invariants.ReachableIsValid | src/SweetShop.js:2-4 | every catalog reachable from the empty one has distinct ids and non-negative prices and quantities |
| SearchProperties.TextStageSelects | src/SweetShop.js:57-81 | a text option narrows the selection of the criteria so far to the selection with that option added |
| SearchProperties.PriceStageSelects | src/SweetShop.js:83-107 | the price options narrow the selection to the one with both bounds added, including the empty answer for an empty range |
| SearchProperties.PriceStageFilters | src/SweetShop.js:102-106 | past the checks, the price options filter once by both bounds |
| SearchProperties.SearchSelects | src/SweetShop.js:53-110 | a successful search returns exactly the catalog records that are in stock and match every given option, in catalog order |
| SearchProperties.TextStageOnText | src/SweetShop.js:58-68 | over string fields, a text option raises exactly when it is given and not a string |
| SearchProperties.SearchErrors | src/SweetShop.js:58-93 | over any catalog when the text options are absent, empty or mistyped, and over catalogs of string names and categories when a text option is a non-empty string, a search raises iff an option has the wrong kind, and the first mistyped option (name, category, bounds) decides the error |
| SearchProperties.SearchWithoutCriteria | src/SweetShop.js:54-55 | no criteria, or an empty options object, gives the plain listing |
| SearchProperties.SearchEmptyRange | src/SweetShop.js:95-100 | numeric bounds with min above max give an empty answer without error over any catalog when the text options are absent or empty, and over catalogs of string names and categories when they are non-empty strings |
| SearchProperties.SearchIgnoresCase | src/SweetShop.js:62-66 | two name queries that lower-case alike give the same answer |
| SearchProperties.SearchFindsOwnName | src/SweetShop.js:62-66 | when every in-stock name is a string, an in-stock record is found by its own name in any letter case, whatever the stored categories, and the answer is the selection of that name option |
| SearchProperties.SearchFailsOnStoredNumberName | src/SweetShop.js:63-66 | a non-empty name search over an in-stock record with a non-string name raises |
| CatalogProperties.AddSweetErrors | src/SweetShop.js:7-22 | adding reports the first failing check in the order missing field, non-number, negative, duplicate id |
| CatalogProperties.DeleteSweetErrors | src/SweetShop.js:29-43 | deleting reports the first failing check in the order null/undefined, non-number, not positive, not found |
| CatalogProperties.PurchaseSweetErrors | src/SweetShop.js:114-131 | purchasing reports id, then amount, then not found, then insufficient stock with name, available and requested; the refused purchase changes nothing |
| CatalogProperties.RestockSweetErrors | src/SweetShop.js:140-153 | restocking reports id, then amount, then not found |
| CatalogProperties.PurchaseChangesOnlyThatRecord | src/SweetShop.js:123-135 | with unique ids, a purchase lowers exactly the matching record's quantity by the amount and leaves every other record and the order unchanged |
| CatalogProperties.RestockChangesOnlyThatRecord | src/SweetShop.js:149-156 | with unique ids, a restock raises exactly the matching record's quantity by the amount and leaves every other record unchanged |
| CatalogProperties.FindFromIgnoresQuantity | src/SweetShop.js:123-133 | changing a quantity never changes the result of the scan from any position |
| CatalogProperties.FindIndexIgnoresQuantity | src/SweetShop.js:123-133 | changing a quantity never moves the position at which an id is found |
| CatalogProperties.RestockAt | src/SweetShop.js:149-156 | a restock that finds its record at a position updates and returns that record |
| CatalogProperties.PurchaseAt | src/SweetShop.js:123-135 | a purchase that passes its checks at a position updates and returns that record |
| CatalogProperties.PurchaseUndoesRestockAt | src/SweetShop.js:123-135 | buying n from a record just raised by n, in a catalog with non-negative stock, gives back the old catalog and record |
| CatalogProperties.RestockUndoesPurchaseAt | src/SweetShop.js:149-156 | restocking n into a record just lowered by n gives back the old catalog and record |
| CatalogProperties.RestockThenPurchase | src/SweetShop.js:112-157 | for a positive id that is found and a positive amount n, restocking n and then purchasing n of that record succeeds and restores the catalog |
| CatalogProperties.PurchaseThenRestock | src/SweetShop.js:112-157 | whenever a purchase of n would succeed (positive id and amount, the id found, n at most its stock), purchasing n and then restocking n succeeds and restores the catalog |
| CatalogProperties.AddThenDelete | src/SweetShop.js:19-46 | deleting a record just added under a positive numeric id returns it and restores the catalog |
| CatalogProperties.DeleteRemovesId | src/SweetShop.js:39-46 | with unique ids, a delete removes the id completely, keeps every other record, and a second delete of the id is not found |
| CatalogProperties.ListCounts | src/SweetShop.js:49-51 | the listing holds each in-stock record as often as the catalog does, and no out-of-stock record |
| CatalogProperties.ListAfterAdd | src/SweetShop.js:23-25 | after an add the listing is the old listing plus the new record at the end when it is in stock |
| CatalogProperties.ListAfterRestock | src/SweetShop.js:149-156 | in a catalog with non-negative stock, after a restock the updated record is listed, even if it had no stock before |
| CatalogProperties.ListAfterDelete | src/SweetShop.js:45-51 | with unique ids, after a delete a record is listed iff it was listed and does not carry the deleted id; the new listing is the old one with the deleted record's entry taken out, the rest in their order |
| Scenarios.PurchaseScenario | src/SweetShop.js:112-136 | adding 20 Kaju Katli and buying 5 leaves 15; asking for 16 more is refused with available 15 and requested 16 |
| Scenarios.NumberNameScenario | src/SweetShop.js:6-66 | a record with a numeric name is accepted, and a later name search raises |

## Left out

- The console front end (cli.js): prompts, output formatting, menu recursion, and the
  `parseInt`/`parseFloat` conversion of typed input. It is I/O around the catalog.
- Exact error message text. Each message is one `Error` constructor. Insufficient stock
  carries the record's name, the available stock and the requested amount.
- Object identity and aliasing. Listing returns the stored objects themselves, and adding
  returns the stored object. Records here are values, so this has no counterpart.
- Non-integer and special numbers. Fractional prices and amounts, NaN (which passes the
  number checks) and infinities are not modelled. Numbers are unbounded integers.
- Object, array and function argument values. `JsValue` holds primitives only. A truthy
  non-object passed as search criteria is not modelled. Criteria are `None` (null or
  undefined) or an options record.
- Unicode case mapping. Lower-casing covers ASCII letters only.
- Search errors from a stored non-string category are modelled like names, but no lemma
  is stated for them separately.
- SearchProperties.SearchErrors: when a non-empty text option is given, requires every stored
  name and category to be a string. Otherwise that option's filter can also raise
  `StoredFieldNotText`, which `SearchFailsOnStoredNumberName` covers for names. Absent or
  empty text options need nothing of the catalog.
- SearchProperties.SearchEmptyRange: a non-empty text option is covered only when every stored
  name and category is a string. If a non-string field reaches that option's filter, the source
  raises instead, and `SearchFailsOnStoredNumberName` states that case for names.
- CatalogProperties.RestockThenPurchase: requires non-negative quantities, which hold in
  every reachable state (`Invariants.ReachableIsValid`). With a negative stored quantity the
  purchase after the restock would be refused.
- CatalogProperties.ListAfterRestock: requires non-negative quantities, which hold in every
  reachable state (`Invariants.ReachableIsValid`). A restock onto a quantity below minus the
  amount would leave the record unlisted.
- CatalogProperties.DeleteSweetErrors: states the not-found case in one direction only; the
  other direction follows from `Shop.DeleteSweet`'s success condition.
