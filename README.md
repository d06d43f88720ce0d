# Sweet Tones by Toni — stock, slots and order ids, in Dafny

This project models the bookkeeping core of the bakery's order backend, `server.js`:

- **Order submission** (`POST /api/orders`): the required-field and slider checks, the cart parse,
  the order id, the stock engine, the pickup-slot decrement and the order INSERT, in the handler's order.
- **The stock engine**: the cart is folded into a `requested` table (id → summed quantity). Each id
  resolves to a stock-bearing entity; a variant of a `hasVariants` product wins over a product with
  the same id. The whole cart is rejected if any resolved finite stock is below the quantity asked.
  Only then is every such entity written `max(0, stock - qty)`, computed from the one catalog read.
- **Order ids** (`generateOrderId`): the upper-cased first three characters of the trimmed name,
  then one more than the number of order ids `LIKE` that prefix followed by `%`, padded to three digits.
- **The pickup calendar** (`available-dates.json`): the per-order slot decrement, and the admin
  routes that add, resize and delete dates.
- **The catalog upsert** (`upsertProductToDb`) and the **product-limits merge**
  (`PUT /api/admin/product-limits`).

The SQLite tables and the JSON files are held as class state: `CatalogStore.Catalog` (products with
their images and variants), `OrderLedger.Ledger` (the `orders` table), `PickupDates.Calendar` and
`ProductLimits.LimitStore`. Each route is one method on that state. Each method is proved against a
specification function (`Decremented`, `FirstShortage`, `UpsertSpec`, `AfterOrder`, `Merged`,
`NextOrderId`), and lemmas prove what the code promises about those functions.

Storage failures are parameters (`writeOk`, `slotWriteOk`, `storageFails`). So is the outcome of the
`new Date` checks (`dateOk`), and so is the generated date id (`newId`).

Where the documented design and `server.js` differ, the model follows `server.js`:

- A stock rejection does not delete the uploaded payment proof (server.js:657). Only a failed INSERT or an
  exception raised in the handler does (server.js:754-757, 789-797).
- The slot decrement always searches the `pickup` list by date, whatever the delivery type (server.js:708).
- The order-id count is SQLite `LIKE`, not a plain prefix test: it ignores ASCII case, and a `_` or `%`
  in the name acts as a wildcard (server.js:446-447).
- A resize or delete of a date answers success even when the file write fails (server.js:1131, 1156).

## Model

| member | source | states |
|---|---|---|
| Text.TrimStart | server.js:610 | the result is the suffix of the input left after a run of whitespace, and does not start with whitespace |
| Text.TrimEnd | server.js:610 | the result is the prefix of the input before a run of whitespace, and does not end with whitespace |
| Text.Trim | server.js:610 | `trim()` leaves neither leading nor trailing whitespace and never lengthens the string |
| Text.TrimIsSlice | server.js:610 | `trim()` yields a slice of its input with only whitespace before and after it |
| Text.PaddedDecodes | server.js:455 | `n.toString().padStart(3,'0')` is all digits, reads back as `n`, has at least three digits, and exactly three below 1000 |
| Text.PadStart3Decodes | server.js:455 | padding a digit string with zeros keeps it a digit string of the same value, of length max(3, its length) |
| Text.DigitsDecode | server.js:455 | `n.toString()` is a non-empty digit string with no leading zero that reads back as `n` |
| Text.SlugIsSlugText | server.js:271 | a derived slug has no whitespace and no upper-case ASCII letter, and is no longer than the name |
| Text.SlugIdempotent | server.js:271 | slugging a slug changes nothing |
| Cart.LineId | server.js:619 | a line's id is `id`, else `productId`, else the dataset id, and empty only when all three are |
| Cart.LineQty | server.js:620 | the quantity is taken from the first truthy of `qty` and `quantity` (a "0" string is truthy and gives 0), else 0, and is missing exactly when the chosen field is not a finite number |
| Cart.Aggregate | server.js:615-623 | the keys are the counted ids in first-occurrence order; each maps to the sum of its lines' quantities, and nothing else is a key |
| Cart.KeyOrderExact | server.js:618-623 | the key order has no repeats, and an id is in it exactly when some line has that id and a finite quantity |
| Cart.RequestedAbsent | server.js:619-622 | an id on no counted line is requested zero times |
| Cart.RequestedConcat | server.js:618-623 | the requested quantity of a cart is the sum over any split of its lines |
| Cart.RequestedSwap | server.js:618-623 | the requested quantities do not depend on line order |
| Basics.FindFirst | server.js:635 | `find`/`findIndex`: the first index whose element satisfies the test, and none only when no element does |
| Products.FindVariant | server.js:635 | `variants.find` by id: the first index with that id, or none when no variant has it |
| Products.VariantSearch | server.js:633-644 | the scan stops at the first `hasVariants` product offering the id, and no earlier product offers it; none means no product from there on does |
| Products.IdToIndex | server.js:614 | `Object.fromEntries`: an id is a key iff some product has it, and maps to the last product with that id |
| Products.ResolveSpec | server.js:632-654 | an offered variant wins (first offering product); otherwise the last product with the id; otherwise unresolved |
| Products.ResolvedValid | server.js:632-654 | a resolved target lies inside the catalog and carries the id it was resolved from |
| Products.ResolveInjective | server.js:632-654 | two different ids never resolve to the same entity |
| Products.SetStockEffect | server.js:690-698 | one UPDATE changes that entity's stock to the value and no other stock or field |
| Products.SameButStocksKeepsShape | server.js:690-698 | stock writes keep every position and id |
| Products.SameButStocksKeepsIds | server.js:690-698 | stock writes keep product and variant ids unique |
| Products.SameButStocksTrans | server.js:663-701 | a sequence of stock writes still differs from the start in stock values only |
| StockEngine.ShortageMeans | server.js:656-657 | an id fails exactly when it resolves to an entity with finite stock below the quantity; the error names that entity's title (with ` - ` and the variant name for a variant) and its stock |
| StockEngine.FirstShortageSpec | server.js:626-659 | validation passes iff every requested id passes; a failure is the error of some requested id, and every id before it passed |
| StockEngine.FirstShortagePasses | server.js:626-659 | when validation passes, every requested id passes |
| StockEngine.FirstShortageFound | server.js:626-659 | a reported failure is the error of some requested id, and every id before it passed |
| StockEngine.FirstShortagePrefix | server.js:626-659 | once some id fails, the ids after it do not change the reported error |
| StockEngine.DecrementedShape | server.js:663-701 | the decrement loop changes stock values only |
| StockEngine.DecrementedStep | server.js:663-701 | one decrement iteration writes `max(0, stock - qty)` to the entity the id resolves to, when its snapshot stock is finite, and leaves every other entity's stock as it was |
| StockEngine.DecrementedStockAt | server.js:663-701 | an entity ends with `max(0, stock - qty)` when its own id was requested, resolves to it and its stock is finite, and with its old stock otherwise |
| StockEngine.CommitIsExact | server.js:656-698 | after a passing validation every written stock is exactly `stock - qty`, and never negative |
| StockEngine.DecrementedAtRequested | server.js:663-701 | the entity a requested id resolves to ends with `max(0, stock - qty)` when its stock is finite, and with exactly `stock - qty` when the quantity does not exceed the stock |
| StockEngine.NegativeQuantityRaisesStock | server.js:620-698 | the entity a requested id with a negative quantity resolves to ends with `stock - qty`, above its old stock |
| StockEngine.Locate | server.js:632-654 | the resolution loop yields exactly the specified resolution of the id |
| StockEngine.CheckOne | server.js:627-658 | one validation iteration yields exactly that id's verdict |
| StockEngine.Validate | server.js:626-659 | the validation loop yields the first failing id's error, in `requested` order, or none |
| CatalogStore.Catalog.ApplyRequested | server.js:626-701 | all or nothing: on any failure, the error of the first failing id and an unchanged catalog; otherwise the catalog after every decrement; unique ids kept |
| CatalogStore.Catalog.WriteDecrements | server.js:663-701 | the decrement loop leaves the catalog equal to its specification over the snapshot |
| CatalogStore.RowIndex | server.js:251-252 | the row an upsert hits: the first product with the id, or a new position at the end |
| CatalogStore.VariantIdFor | server.js:271 | a variant keeps a given id; otherwise its id is exactly the product id, `-` and the slug of the name, a slug with no whitespace or upper-case letter |
| CatalogStore.VariantRow | server.js:271-272 | the inserted row has the derived id, the name, the size or else the name, the given price (0 for a NaN price), and the given stock when it is non-negative, else 0 |
| CatalogStore.FirstClash | server.js:267-273 | the variant inserts stop at the first row whose id is already a key; every row before it can be inserted |
| CatalogStore.Catalog.Upsert | server.js:249-275 | the catalog and outcome are those of the upsert specification; unique ids kept |
| CatalogStore.Catalog.ReplaceImages | server.js:259-265 | the product's image list becomes exactly the given urls, in order |
| CatalogStore.Catalog.ReplaceVariants | server.js:267-273 | the product's variants become the derived rows up to the first taken id, which is reported |
| CatalogStore.UpsertRowEffect | server.js:251-257 | the row with the id carries the given columns and "cookies" for an empty category; an existing row keeps its place, a new one is appended; no other product changes |
| CatalogStore.UpsertImagesEffect | server.js:258-265 | images are replaced only when a list is given; otherwise kept, or empty for a new product |
| CatalogStore.UpsertVariantsEffect | server.js:266-273 | variants are kept when no list is given; otherwise exactly the derived rows, or the rows before a taken id, which is reported and is a key of the result |
| CatalogStore.UpsertClash | server.js:266-273 | a variant insert on a taken id stops the upsert with the rows before it in place, and the reported id is a key of the resulting catalog |
| CatalogStore.UpsertKeepsUniqueIds | server.js:249-275 | an upsert keeps product ids and variant ids unique |
| CatalogStore.InsertedRowsKeepIds | server.js:270-273 | variant rows inserted while their ids are free keep variant ids unique |
| CatalogStore.UpsertRowKeepsIds | server.js:251-252 | the row upsert keeps product ids unique |
| CatalogStore.UpsertIdempotent | server.js:249-275 | saving the same product a second time changes nothing, when the first save went through |
| CatalogStore.FirstClashIgnoresOldVariants | server.js:268-273 | the variant set deleted before the inserts does not affect where they stop |
| OrderIds.LikeSelfPrefix | server.js:446-447 | every id that starts with the prefix is counted, whatever wildcards the prefix holds |
| OrderIds.LikeLiteralPrefix | server.js:446-447 | for a prefix without `%` or `_`, an id is counted exactly when it starts with the prefix, ignoring ASCII case |
| OrderIds.LikeAnyTail | server.js:447 | the trailing `%` matches any rest |
| OrderIds.PrefixSpec | server.js:442 | the prefix is the first min(3, length) characters of the name, upper-cased |
| OrderIds.OrderIdDecodes | server.js:454-455 | an id is its prefix followed by the digits of count + 1, three of them below 1000 |
| OrderIds.OrderIdInjective | server.js:454-455 | different counts give different ids for the same prefix |
| OrderIds.MatchCountGrows | server.js:446 | the count never exceeds the number of orders and only grows as orders are added |
| OrderIds.CountAdvances | server.js:446-455 | storing a generated id raises its prefix's count by exactly one |
| OrderIds.NextIdFresh | server.js:440-456 | while fewer than 999 orders are stored, a generated id is never already taken in a table filled by order submissions |
| OrderIds.GeneratedExtend | server.js:734-735 | storing the generated id keeps the table one filled by order submissions |
| OrderLedger.Ledger.CountLike | server.js:445-447 | the count query yields the number of stored ids `LIKE` the prefix followed by `%` |
| OrderLedger.Ledger.GenerateOrderId | server.js:440-456 | `generateOrderId` yields the specified next id for the name |
| OrderLedger.Ledger.Insert | server.js:726-760 | the row is stored iff its id is new and the store does not fail; otherwise nothing changes; unique ids kept |
| OrderLedger.LedgerNextIdFresh | server.js:610 | below 999 orders, the id generated for the next order is new |
| PickupDates.IndexOfDate | server.js:708 | `findIndex` by date: the first entry with that date, or none when no entry has it |
| PickupDates.IndexOfId | server.js:1109 | `findIndex` by id: the first entry with that id, or none when no entry has it |
| PickupDates.AfterOrderEffect | server.js:708-717 | an order lowers its date's free slots to `max(0, remaining - 1)`; no other entry or field changes; no listed date, no change |
| PickupDates.AfterOrderKeepsCalendar | server.js:708-717 | taking a slot keeps every entry within 0..total and dates unique |
| PickupDates.AfterOrderTakesOne | server.js:708-717 | across the calendar an order takes exactly one free slot if its date is listed and not full, else none |
| PickupDates.FreeSlotsUpdate | server.js:712-716 | replacing an entry changes the calendar's free slots by the difference |
| PickupDates.Calendar.TakeSlot | server.js:705-722 | the list becomes the specified one after the order, or stays as it was when the write fails |
| PickupDates.ResizeKeepsUsed | server.js:1112-1114 | a resize keeps the taken slots when the new total holds them, and otherwise frees none; the free count stays within the total |
| PickupDates.ResizedWellFormed | server.js:1112-1120 | a resize to a total in 1..50 (or none) keeps the entry well formed, its id and date, and its taken slots when they fit |
| PickupDates.Calendar.UpdateDate | server.js:1097-1133 | range check first, then lookup by id (404), then the resized entry in place; success even if the write fails |
| PickupDates.Calendar.DeleteDate | server.js:1140-1158 | the first entry with the id is spliced out, or 404 |
| PickupDates.Calendar.AddDate | server.js:1017-1089 | the outcome is the first failing check in the route's order: missing fields, type, 1..50, date checks, duplicate date, then the write; the new entry has all slots free and is stored only when written |
| ProductLimits.LastAccepted | server.js:531-537 | the last finite non-negative value given for an id, and that no later entry for it was accepted |
| ProductLimits.MergedAt | server.js:530-537 | an id holds the last accepted value given for it, or keeps its limit when none was accepted |
| ProductLimits.MergedNonNegative | server.js:533-535 | merging keeps every limit non-negative |
| ProductLimits.MergedIdempotent | server.js:530-537 | sending the same limits twice leaves them as after the first time |
| ProductLimits.LimitStore.Merge | server.js:523-542 | a non-object payload is refused; a failed write keeps the stored limits; otherwise they become the merge |
| Orders.HasRequiredFields | server.js:580 | a request passes the first check only with a name, email, phone, date, cart and payment proof |
| Orders.RowFor | server.js:734-749 | the stored row has the generated id, the cart, status "pending", trimmed name, email, phone, address and Instagram handle, "Store Pickup" for a missing address, and the notes and date as sent |
| Orders.PlaceOrder | server.js:613-760 | after the order id: a stock failure changes nothing; otherwise stock is decremented, the slot taken, and the row stored unless the INSERT fails; invariants kept |
| Orders.RecordOrder | server.js:705-760 | the slot is taken (unless its write fails), then the row is stored under the new id exactly when the INSERT succeeds, with "pending" status |
| Orders.SubmitOrder | server.js:565-803 | the handler's checks in order; a null cart item is a server error; a stock failure changes nothing; otherwise stock is decremented, the slot taken, and the row stored under the generated id unless the INSERT fails; invariants kept; no id clash below 999 orders |

## Left out

- HTTP routing, status codes, logging, authentication, rate limiting and the e-mail placeholder. Each
  route's answer is an outcome value.
- Multer uploads and the `fs.unlink` clean-up. The upload is only the `hasPaymentProof` flag.
- SQLite and file access themselves. A failed read, a failed count query or an exception part-way
  through a loop (which would leave some stock writes done) is not modelled.
- Concurrency. Two submissions that interleave can count the same ledger and generate the same id;
  each request is modelled as one atomic step.
- Floating point. Quantities, stocks, slot totals and limits are integers. A fractional quantity or
  limit, and `parseInt` truncating a fractional slot total, are not modelled. Prices are stored as given.
- Money columns, the upload file names, `createdAt`/`updatedAt` and the order status route.
- Date parsing, the past-date check and the sort after an added date. The checks are the `dateOk`
  parameter, and the new entry is appended rather than sorted in.
- JavaScript's ordering of integer-like object keys. `Object.entries(requested)` lists keys such as
  "12" before others; the model uses insertion order. This affects only which error is reported first.
- Unicode case mapping and trimming. Upper- and lower-casing are ASCII only, and whitespace is the
  ASCII set plus U+00A0 and U+FEFF. `substring` counts UTF-16 units in JavaScript and characters here.
- The JSON shapes of loosely typed fields are collapsed. A non-array cart becomes its values, and a
  non-array image or variant list is an empty list.
- The product routes around the upsert. Product delete (`deleteProductFromDb`, server.js:277-281) removes
  a product with its images and variants and is not modelled. The create and update routes
  (server.js:317-386) answer 400 for a missing or blank title, 409 for a taken id and 404 for an unknown
  one, and normalise the title, price and stock before calling the upsert; only the upsert is modelled.
- The public date filter, the product and date reads, and the startup migration, which are plain reads
  or one-off set-up.
- Cart.Requested, Cart.RequestedMap, Cart.Aggregate: ids that name members of `Object.prototype` are assumed
  not to occur. In server.js:622 `requested` is a plain object: for an id such as "toString", "valueOf" or
  "constructor" the sum starts from an inherited function and becomes a string, so the `qty > stock` check
  (server.js:656) passes and `max(0, stock - qty)` is NaN, stored as NULL (unlimited stock); for "__proto__"
  the assignment is ignored and the line is neither validated nor decremented.
- ProductLimits.Merged: likewise, an entry with id "__proto__" is dropped by the assignment at server.js:535.
- CatalogStore.UpsertSpec, CatalogStore.Catalog.Upsert: a `null` element of `variants` is not modelled. In
  server.js:271 reading its `id` throws after the DELETE and the inserts before it, leaving those in place.
- Cart.CartLine: only a `null` cart item that makes reading `item.id` throw is modelled, as the
  `HasNullItem` cart (server.js:619, 789-803); non-integer quantities are left out as noted above.
- OrderIds.NextIdFresh: proved only while fewer than 999 orders are stored. Once numbers reach four
  digits, ids of different prefixes can coincide: "A" with number 1001 and "A1" with number 1 both give "A1001".
- OrderLedger.LedgerNextIdFresh: the same bound of 999 stored orders.
- Orders.SubmitOrder: the no-clash promise carries the same bound of 999 stored orders.
- PickupDates.Calendar.AddDate, PickupDates.Calendar.UpdateDate: the slot total is an integer here, so two
  cases of the string the routes receive are not modelled. A non-numeric total such as "abc" compares false
  with both 1 and 50, so it passes the range checks (server.js:1033, 1102) and is stored as NaN
  (server.js:1068-1069, 1112-1114), which breaks the 0..total invariant. The string "0" is truthy, so the add
  route answers "slots out of range" rather than "missing fields" (server.js:1023-1036), and the update route
  rejects it, whereas the model's 0 means "keep the total".
- Orders.SubmitOrder: a request without `subtotal` or `total` makes `parseFloat` yield NaN, bound as NULL
  into NOT NULL columns (server.js:161-162, 744-745), so its INSERT always fails after the stock and the slot
  were already changed. The model does not derive this; it is one of the cases `storageFails` stands for.
