# Shopping site core: crawl normaliser, goods queries, cart store, cart view, user table

This project models the logic inside the Express application of a small
shopping site (`app.js`). Each piece works on in-memory stores in place of
MongoDB collections:

- **Crawl normaliser** (`GET /goods/add/crawling`). The selector engine gives
  four optional strings for each `ol li` listing of the bestseller page:
  description, image `src`, image `alt` and price text. A listing is kept only
  when all four are truthy (present and non-empty). Cleaning the price drops
  its last character (the currency glyph) and then every comma. Each kept
  listing becomes one new goods record of category `"도서"` (books). The loop
  is a method that appends to a `GoodsStore` class (`Crawl.Run`).
- **Goods queries**. `GET /goods` filters by category only when the query has
  a truthy category, then orders newest first by `date` (`Catalog.ListGoods`).
  `GET /goods/:goodsId` looks up by id; None stands for the 404 answer
  (`Catalog.FindById`).
- **Cart store**. `CartStore` holds `(userId, goodsId, quantity)` entries in
  insertion order. `Put` overwrites the quantity of the existing entry or
  appends a new one. `Remove` deletes the entry if there is one and otherwise
  does nothing. Both keep the invariant "at most one entry per (userId,
  goodsId)".
- **Cart view** (`GET /goods/cart`). It filters the user's entries and selects
  the referenced goods. It builds a dictionary keyed by goods id with a left
  fold, where a later duplicate overwrites an earlier one. It then maps each
  entry to `{quantity, goods}`; goods is absent for a dangling id.
- **User table**. `UserStore.Register` runs after schema validation. It refuses
  when the password and its confirmation differ, or when a stored user has the
  same email or the same nickname. Otherwise it inserts exactly one user.
  `Login` finds a user only on an exact email-and-password match.

Modules: `Wrappers` (Option, JavaScript truthiness of an optional string),
`Catalog` (goods records, store, queries), `Crawl` (normaliser and crawl
loop), `Cart` (cart entries and store), `CartView` (the join), `Users`.

Decisions where the source leaves things open:
- The goods query selects by `_id` but keys its dictionary by `g.goodsId`.
  `./models/goods` is not part of this model, so both are taken to be the one
  store-assigned id (`GoodsId`). The store draws it from a counter, so ids are
  unique. `app.js` itself sets no `goodsId` for a crawled record: the lines
  that would set it (app.js:137 and 139) are commented out.
- `app.js` sets no date on a crawled record. The `date` variable at
  app.js:135 is never used, and `Goods.create` (app.js:138-144) passes only
  name, thumbnailUrl, category and price. The `date` that `.sort("-date")`
  orders by must come from `./models/goods`. The model assumes the store
  stamps each new record with a clock reading given as the parameter `now`,
  one reading for the whole crawl.
- The price is kept as the cleaned string. The string-to-number cast happens
  in `./models/goods`, which is not part of this model. This follows the code;
  a design where the normaliser itself parses an integer and rejects malformed
  prices is not what `app.js` does.
- Cart quantities are stored as given, with no check that they are at least
  one, because the code does no such check.
- `.sort("-date")` leaves the order of equal dates to the database. The model
  fixes a stable order (store order among equal dates).

## Model

| member | source | states |
|---|---|---|
| `Crawl.Complete` | app.js:133 | definition: `desc && image && title && price`, each field present and non-empty |
| `Crawl.DropLast` | app.js:134 | definition of `slice(0, -1)`: everything but the last character, `""` for `""` |
| `Crawl.DropLastRestores` | app.js:134 | putting the dropped character back gives the original text; an empty text stays empty |
| `Crawl.KeepChar` | app.js:134 | a character contributes no comma, and a character other than a comma contributes itself |
| `Crawl.KeepCharComma` | app.js:134 | a comma contributes nothing |
| `Crawl.RemoveCommas` | app.js:134 | the result contains no `,` and is no longer than the input |
| `Crawl.CleanPrice` | app.js:134 | the cleaned price contains no `,` and is shorter than a non-empty price text |
| `Crawl.RemoveCommasAppend` | app.js:134 | comma removal distributes over concatenation |
| `Crawl.RemoveCommasNoComma` | app.js:134 | a text without commas is left unchanged |
| `Crawl.CleanPriceGlyph` | app.js:134 | cleaning `body + glyph` removes exactly the glyph and then the commas of `body` |
| `Crawl.ThousandsPrice` | app.js:134 | `"<high>,<low><glyph>"` with comma-free groups cleans to `"<high><low>"` |
| `Crawl.CleanPriceExamples` | app.js:134 | `"10,000원"` cleans to `"10000"` and `"7,500원"` to `"7500"` |
| `Crawl.Normalize` | app.js:128-143 | a record is produced iff all four fields are truthy; it has name = alt, thumbnailUrl = src, category `"도서"`, price = the cleaned text, which has no comma |
| `Crawl.Kept` | app.js:133-144 | definition: the record one listing contributes, none when it is skipped |
| `Crawl.KeptAtMostOne` | app.js:133-144 | a listing contributes at most one record, and one exactly when it is complete |
| `Crawl.KeptInfos` | app.js:127-145 | no more records than listings |
| `Crawl.KeptInfosShape` | app.js:134-143 | every crawled record has category `"도서"` and a comma-free price |
| `Crawl.KeptInfosAppend` | app.js:127-145 | the records of two listing runs are the records of each, concatenated in order |
| `Crawl.KeptInfosFrom` | app.js:133-144 | a record is produced iff some listing normalises to it (both directions) |
| `Crawl.KeptInfosSnoc` | app.js:127-145 | crawling one more listing appends exactly that listing's records |
| `Crawl.KeptOfThree` | app.js:127-145 | a complete, an incomplete and a complete listing give exactly the two complete listings' records, in order |
| `Crawl.KeptInfosCount` | app.js:133 | no complete listing gives no record; all complete gives one record per listing |
| `Crawl.ThreeListingScenario` | app.js:127-145 | two complete listings priced `"10,000원"` and `"7,500원"` and one without an image give exactly two records, priced `"10000"` and `"7500"` |
| `Crawl.Run` | app.js:127-145 | the store grows by exactly the kept records, in listing order, each stamped with the run's date; earlier records are unchanged; ids stay unique |
| `Crawl.RunTwice` | app.js:112-147 | crawling the same page twice adds every kept record twice (no deduplication); the records stored before are unchanged |
| `Catalog.GoodsStore.Create` | app.js:138-144 | appends exactly one record with a fresh id and the given fields |
| `Catalog.OfCategory` | app.js:254 | keeps exactly the records of the category, as a sub-multiset of the store |
| `Catalog.FilterCategory` | app.js:253-254 | with a truthy category only that category's records remain; otherwise all records remain |
| `Catalog.InsertByDate` | app.js:255 | inserting into a newest-first sequence keeps it newest first and adds exactly the one record |
| `Catalog.SortNewestFirst` | app.js:255 | the result is ordered by date descending and is a permutation of the input |
| `Catalog.ListGoods` | app.js:252-258 | the listing is newest first, a permutation of the filtered records, and holds a record iff it is stored and matches the truthy category |
| `Catalog.FindById` | app.js:264-272 | a found record is stored and has that id; "not found" iff no stored record has that id |
| `Catalog.FindByIdStored` | app.js:266 | with unique ids, looking up a stored record's id returns that record |
| `Cart.FindEntry` | app.js:202-205 | returns the first entry for (userId, goodsId), or none iff no entry matches |
| `Cart.QuantityOf` | app.js:202-209 | no quantity exactly when no entry for (u, g) is stored; a quantity found is that of a stored (u, g) entry |
| `Cart.Upserted` | app.js:202-217 | the PUT's effect: the cart afterwards holds `(u, g, q)` and has grown by at most one entry |
| `Cart.OverwriteState` | app.js:207-209 | overwriting the quantity of the only (u, g) entry leaves exactly that entry, with the new quantity, and the other entries unchanged |
| `Cart.InsertState` | app.js:210-216 | appending when no (u, g) entry exists leaves exactly the new entry for (u, g) and the other entries unchanged |
| `Cart.UpsertedState` | app.js:202-217 | after a PUT there is exactly one entry for (u, g), with quantity q; the other keys' entries are the same in the same order; keys stay unique |
| `Cart.UpsertedTwice` | app.js:202-217 | a second PUT for the same key gives the same cart as the second PUT alone |
| `Cart.UpsertedSize` | app.js:207-217 | an existing key keeps the cart's size; a new key grows it by one |
| `Cart.Deleted` | app.js:230-238 | the DELETE's effect: the cart afterwards has shrunk by at most one entry and holds only entries it held before |
| `Cart.RemoveAtState` | app.js:236-237 | removing the only (u, g) entry leaves exactly the other keys' entries, in order |
| `Cart.DeletedState` | app.js:230-238 | after a DELETE the cart is exactly the other keys' entries, in order; no entry for (u, g) remains |
| `Cart.DeletedAbsent` | app.js:235-238 | a DELETE of a key that has no entry changes nothing |
| `Cart.DeletedIdempotent` | app.js:230-238 | deleting twice is the same as deleting once |
| `Cart.UpsertThenDelete` | app.js:202-238 | a PUT followed by a DELETE of the same key leaves just the other keys' entries |
| `Cart.CartStore.Put` | app.js:197-221 | the new cart is the upsert of the old one: one entry with quantity q for (u, g), the rest unchanged, keys unique |
| `Cart.CartStore.Remove` | app.js:226-242 | the new cart is the old one without the (u, g) entry; unchanged when there was none; keys unique |
| `CartView.EntriesOf` | app.js:164-166 | holds exactly the stored entries of that user |
| `CartView.SelectIds` | app.js:171-174 | holds exactly the stored records whose id is one of the given ids |
| `CartView.KeyById` | app.js:175-183 | the dictionary's keys are the ids of the records, and each key maps to a record with that id |
| `CartView.KeyByIdLastWins` | app.js:176-182 | for each id the dictionary keeps the last record with that id |
| `CartView.SelectKeepsLookup` | app.js:171-183 | selecting by the cart's ids first does not change the dictionary's answer for those ids |
| `CartView.Get` | app.js:188 | definition of `goodsKeyById[c.goodsId]`: the record under the key, none when the key is missing |
| `CartView.View` | app.js:161-191 | one line per cart entry of the user, in the same order, with the entry's quantity; goods is a stored record with the entry's id, absent exactly when no record has that id |
| `CartView.ViewPicksLast` | app.js:171-189 | a line's goods is the last catalog record carrying the entry's goods id |
| `CartView.ViewMatchesFindById` | app.js:171-189 | with unique goods ids, every line's goods is what lookup by id returns |
| `CartView.EmptyCart` | app.js:164-189 | a user with no cart entries gets an empty cart |
| `CartView.NoEntriesOf` | app.js:164-166 | a user with no stored entries gets no entries from the filter |
| `Users.Conflicts` | app.js:47-49 | holds exactly the users with the same email or the same nickname |
| `Users.Admission` | app.js:40-55 | fails on a password mismatch; otherwise fails iff some user has the same email or nickname; otherwise admits |
| `Users.Login` | app.js:80-87 | a found user is stored with that email and password; none is found iff no stored user has both |
| `Users.AdmissionKeepsDistinct` | app.js:47-58 | an admitted user keeps emails and nicknames distinct across the table |
| `Users.LoginFindsStored` | app.js:80-87 | with distinct emails and distinct nicknames, a stored user's credentials log in as that user |
| `Users.RegisterThenLogin` | app.js:57-58 | after a successful registration the new user's credentials find the new user |
| `Users.ReRegisterRefused` | app.js:47-55 | registering again with a taken email or nickname is refused |
| `Users.UserStore.Register` | app.js:40-60 | the outcome is the admission decision; the table grows by exactly the new user when admitted and is unchanged otherwise |

## Left out

- HTTP fetching of the bestseller page (app.js:115-119) and EUC-KR decoding (app.js:121): network I/O and a foreign codec; the crawl starts from the parsed listings.
- The HTML selector engine (app.js:122-131): its result is given as a sequence of `Listing` values with four optional strings.
- Express routing, status codes, `res.send`, static serving and `app.listen` (app.js:25-26, 276-281): request/response plumbing. Outcomes are returned as values (None for 404, a `Registration` for the 201/400 answers).
- The MongoDB connection and schema casting (app.js:18-23); the cast of the cleaned price to a number happens in `./models/goods`, which is not part of this model, so the price is kept as a string.
- Joi schema validation (app.js:28-33, 70-73): a foreign library. Registration is modelled after validation. The `nicknmae` key at app.js:29 makes the real validation depend on Joi's unknown-key rules, which are not modelled.
- JWT signing (app.js:89) and the authentication middleware, which is not part of this model; the authenticated user id is a parameter, and `userId` of a user record is not modelled.
- `GET /users/me` (app.js:103-109): it only echoes the authenticated user.
- The fire-and-forget `list.each(async ...)` (app.js:127) and the un-awaited `existsCart.delete()` (app.js:237): concurrency; the loop is a sequential fold and each store operation is atomic.
- The clock: `app.js` stamps no date (the `new Date()` at app.js:135 is unused). The model takes one reading `now` per crawl and stamps every record of that crawl with it; a schema default in `./models/goods` would read the clock once per `create`, so records of one crawl could differ in date.
- Check-then-write races: the PUT (app.js:202-216) and registration (app.js:47-58) each look up and then save in two separate store calls. The model makes each handler one atomic step, so `UniqueKeys` and `DistinctAccounts` are proved only for requests handled one at a time; two concurrent PUTs for a new key can insert two entries.
- Ids are `nat`: a malformed id string makes the cast in `findById` (app.js:266) and in the `$in` query (app.js:171-173) throw, and with no try/catch the client gets neither the 404 nor the cart view that `Catalog.FindById` and `CartView.View` promise.
- `Crawl.DropLast` removes one Unicode scalar value, while `slice(0, -1)` (app.js:134) removes one UTF-16 code unit; the two differ when the last character lies outside the Basic Multilingual Plane.
- Query result order: without `.sort`, MongoDB leaves the order of `Cart.find`, `Cart.findOne`, `User.find`, `User.findOne` and the `$in` query open. The model fixes store (insertion) order for all of them.
- The tie order of `.sort("-date")` among equal dates is fixed to store order, where the database leaves it open.
