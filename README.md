# BE_CoffeeShop core, modelled in Dafny

This project models the back end of a coffee-shop web shop (Express, knex, Joi, jsonwebtoken and bcrypt). It covers four parts:

- **Authentication gate** (`authMiddleware`). It reads a bearer access token. It verifies the token. When the token has expired, it falls back once to a refresh token that a customer row holds and that has not expired yet. It ends in `next()` with `req.user` set, or in one 401, 403 or 500 response.
- **Customer service.** Registration (schema check, duplicate-email refusal, insert, then the refresh pair written into the new row). Login (one error for an unknown email and for a wrong password, bcrypt's own error when the compare throws, then a new refresh pair). Listing, lookup, update of the profile fields only, deletion.
- **Product service.** Creation without validation. Updates that keep the stored image unless a truthy new one is given. The exact rule for removing a replaced or deleted upload. The category/name search, where `"All"` stands for every category.
- **Order item service.** Validated creation. The customer's open items (`customer_id = userId`, `status = 0`) and the administrator's listing, both joined to `products` for the product name. Unvalidated updates. Deletion.

Files:

- `js.dfy` (module `Js`): the JavaScript values and plain objects the services handle, with truthiness, object literals (`Pick`), `length` in UTF-16 code units, `startsWith`, one-character `split`, and the substring test behind `LIKE '%t%'`.
- `table.dfy` (module `Table`): a knex table. Rows are keyed by an auto-increment primary key and scanned in ascending key order. It provides `SELECT *`, column selection, insert, update, delete, `WHERE` clauses as a small datatype, `first()`, `count()` and `offset/limit` windows.
- `schema.dfy` (module `Schema`): the part of Joi object validation the schemas use. It stops at the first failing key.
- `auth.dfy`, `customers.dfy`, `products.dfy`, `orders.dfy`.

Each service is modelled in two layers:

- **Step functions.** A pure function per operation (`RegisterStep`, `UpdateStep`, ...) gives the result and the table afterwards. The lemmas state the service's rules about these functions.
- **A class per service.** It holds the table as fields `rows` and `nextId`. Each method carries out the operation step by step, and its `ensures` ties the result and the new state to the step function of the old state.

`jwt.verify`, `jwt.sign`, `bcrypt.hash` and `bcrypt.compare` are function-valued parameters, and so is Joi's text-format recognition. So is the current time. Only the authentication gate takes a parameter saying whether its refresh query succeeds; in the services every query and every signing succeeds.

## Model

| member | source | states |
|---|---|---|
| Authentication.Authenticate | src/middleware/authentication.middleware.js:4-83 | One outcome per case. A missing or non-"Bearer " header gives 401. A verified token gives `next()` with the claims' id, name and email. Any verify error other than `TokenExpiredError` gives 403 "Invalid token." without the refresh token. Expired without a refresh token gives 403. A store fault gives 500. No live record gives 403 "Invalid or expired refresh token.". Otherwise the first live record: 500 if signing fails, else `next()` with its user and the new token. Every response is 401, 403 or 500. `req.user` has exactly three keys and never `role`. No `modifies`: the store is only read |
| Authentication.BearerToken | src/middleware/authentication.middleware.js:15 | `split(" ")[1]` of a "Bearer " header is the text after the prefix up to the next space, and holds no space |
| Authentication.BearerFields | src/middleware/authentication.middleware.js:15 | A header starting with "Bearer " splits into at least two fields. The token is the text after "Bearer " up to the next space |
| Authentication.LiveRefresh | src/middleware/authentication.middleware.js:38-41 | The refresh lookup's clause; `LiveRefreshMeaning` states which rows it accepts, `IssuedRefreshIsLive` which stored pairs pass it |
| Authentication.LiveRefreshMeaning | src/middleware/authentication.middleware.js:38-41 | A row passes the refresh lookup iff it holds the token and an expiry strictly after now |
| Authentication.IssuedRefreshIsLive | src/services/customer.service.js:164-168 | A refresh pair stored at time `issued` passes the gate's lookup iff now is before `issued` + 7 days. While it does, the lookup finds a customer |
| Customers.ReadCustomer | src/services/customer.service.js:19-27 | Exactly the five profile fields of the payload, each as given; no password, no refresh pair |
| Customers.CustomerSchema | src/services/customer.service.js:29-38 | The customer schema; `ValidCustomerFields` states what a passing payload holds, `UpdateNeedsPassword` that the password is required |
| Customers.RegisterStep | src/services/customer.service.js:61-113 | The result and table of `register`; stated by `RegisterValidatesFirst`, `RegisterRejectsDuplicateEmail` and `RegisterEnrols` |
| Customers.Enrol | src/services/customer.service.js:76-112 | The hash, insert, signing and refresh write of `register`; stated by `EnrolAddsOneRow`, `EnrolStoresRow` and `EnrolReturns` |
| Customers.LoginStep | src/services/customer.service.js:115-162 | The result and table of `login`; stated by the `Login...` lemmas below |
| Customers.UpdateCustomerStep | src/services/customer.service.js:221-232 | The result and table of `UpdateCustomer`; stated by `UpdateValidatesFirst`, `UpdateNeedsPassword` and `UpdateKeepsCredentials` |
| Customers.RefreshTokenExpiration | src/services/customer.service.js:164-168 | Seven days after the issue time; `IssuedRefreshIsLive` states when the stored pair passes the gate's lookup |
| Customers.RefreshColumns | src/services/customer.service.js:105-110 | The refresh update; `GetRefreshColumns` states it key by key and `RefreshedRow` what it changes in a row |
| Customers.ValidCustomerFields | src/services/customer.service.js:29-38 | A payload that passes the schema holds all six fields: non-empty strings, an email-format email, a password whose JavaScript length is at least 6 (UTF-16 code units), a boolean role |
| Customers.RegisterValidatesFirst | src/services/customer.service.js:61-65 | A failing payload is refused with the schema's failure and the table unchanged |
| Customers.RegisterRejectsDuplicateEmail | src/services/customer.service.js:67-73 | If any row holds the email, registration throws "Email is already in use." and inserts nothing |
| Customers.RegisterEnrols | src/services/customer.service.js:61-113 | A valid payload whose email no row holds goes on to the writes |
| Customers.UnusedEmailEnrols | src/services/customer.service.js:67-75 | Proof helper for `RegisterEnrols`: the same, stated with the email lookup coming back empty |
| Customers.EnrolAddsOneRow | src/services/customer.service.js:81-110 | The insert and the refresh update add exactly one row, under the next key. No other row changes |
| Customers.EnrolStoresRow | src/services/customer.service.js:75-110 | The new row holds the payload's profile fields, the hash of the password, and the refresh pair of the returned token with expiry now + 7 days |
| Customers.EnrolReturns | src/services/customer.service.js:76-82 | The returned customer is the new key plus exactly the inserted columns: the profile fields and the hashed password |
| Customers.EnrolledColumn | src/services/customer.service.js:76-110 | Each column of the stored row after both writes: the refresh pair, the hashed password, a profile field, or nothing |
| Customers.EnrolledFields | src/services/customer.service.js:76-81 | Every profile field in the stored row equals the payload's |
| Customers.GetCustomerData | src/services/customer.service.js:76-79 | The inserted object, one key at a time: the hashed password, the profile fields, nothing else. The plaintext password is never stored |
| Customers.GetRefreshColumns | src/services/customer.service.js:107-110 | The refresh update, one key at a time; an empty token is written as null |
| Customers.RefreshedRow | src/services/customer.service.js:154-159 | Writing the refresh pair changes those two columns of the row and no other |
| Customers.LoginUnknownEmail | src/services/customer.service.js:115-122 | An email no row holds gives "Invalid email or password." and no write |
| Customers.LoginWrongPassword | src/services/customer.service.js:124-131 | A wrong password gives the identical error and no write |
| Customers.LoginCompareFails | src/services/customer.service.js:124-127 | When bcrypt's compare throws (a password missing or not a string), its own message is the error and nothing is written |
| Customers.LoginOtherErrorMeansKnownEmail | src/services/customer.service.js:115-131 | Any login error other than "Invalid email or password." arises only for an email that a row holds, from the compare with that row's password |
| Customers.FindsFirstWithEmail | src/services/customer.service.js:116-118 | The email lookup finds a key iff it is the smallest key whose row holds the email |
| Customers.LoginReturnsProfile | src/services/customer.service.js:161 | A successful login returns exactly the five profile fields of the row: no password, no refresh pair |
| Customers.LoginIssuesRefresh | src/services/customer.service.js:141-159 | A successful login stores the returned refresh token and now + 7 days in the row it found. The row's other columns and every other row are unchanged |
| Customers.UpdateValidatesFirst | src/services/customer.service.js:221-225 | A payload failing the full customer schema is refused with the schema's failure and the table unchanged |
| Customers.UpdateNeedsPassword | src/services/customer.service.js:221-225 | A profile update without a password is refused and writes nothing, though an update never writes the password |
| Customers.UpdateKeepsCredentials | src/services/customer.service.js:221-232 | A valid update returns the id. It rewrites only the profile fields of the addressed row, so the stored password and refresh pair are kept. Other rows are unchanged |
| Customers.UpdatedProfile | src/services/customer.service.js:227-230 | Writing the profile fields of a valid payload into a row, one key at a time |
| Customers.ProfileField | src/services/customer.service.js:19-27 | No profile field is the password, the refresh pair, the key or `id` |
| Customers.CustomerService.constructor | src/services/customer.service.js:8-13 | The service starts over a given valid table |
| Customers.CustomerService.Register | src/services/customer.service.js:61-113 | Validate, look up the email, insert, sign, write the refresh pair. The result and new table are those of `RegisterStep` |
| Customers.CustomerService.Login | src/services/customer.service.js:115-162 | Look up, compare the password (passing on an error the compare throws), sign, write the refresh pair. The result and new table are those of `LoginStep` |
| Customers.CustomerService.GetAllCustomer | src/services/customer.service.js:187-206 | The count is the number of rows, and the page is a window of the listed columns in key order. The empty-table early return gives the same listing |
| Customers.CustomerService.GetCustomerById | src/services/customer.service.js:209-219 | "Customer not found" iff the id is absent. Otherwise the five profile columns of that row, absent columns as null |
| Customers.CustomerService.UpdateCustomer | src/services/customer.service.js:221-232 | Result and new table are those of `UpdateCustomerStep` |
| Customers.CustomerService.DeleteCustomer | src/services/customer.service.js:234-236 | Exactly that id is removed |
| Customers.CustomerService.DeleteAllCustomer | src/services/customer.service.js:238-240 | The table is emptied; the counter is kept |
| Products.ReadProduct | src/services/product.service.js:14-22 | Exactly the five product fields of the payload, each as given |
| Products.ProductUpdate | src/services/product.service.js:74-77 | The update object; stated key by key by `GetProductUpdate` |
| Products.ReplacesUpload | src/services/product.service.js:81-86 | When the old image file is removed; `UpdateRemovesReplacedUpload` states it as an iff about `UpdateStep` |
| Products.SearchCondition | src/services/product.service.js:110-123 | The search clause; `SearchAccepts` states which rows it accepts |
| Products.CreateStep | src/services/product.service.js:56-64 | The result and table of `createProduct`; stated by `CreateStores` |
| Products.UpdateStep | src/services/product.service.js:66-90 | The result, removed file and table of `updateProduct`; stated by `UpdateAbsent`, `UpdateWrites`, `UpdateKeepsImage`, `UpdateRemovesReplacedUpload` and `UpdateReturns` |
| Products.DeleteStep | src/services/product.service.js:92-108 | The result, removed file and table of `deleteProduct`; stated by `DeleteAbsent` and `DeleteRemovesRow` |
| Products.ProductField | src/services/product.service.js:14-22 | No product field is the key or `id` |
| Products.GetProductUpdate | src/services/product.service.js:74-77 | The update object, one key at a time: the product fields, and the image only when it is truthy |
| Products.CreateStores | src/services/product.service.js:56-64 | With no validation, one row is added under the next key, holding the product fields the payload defines. No other row changes. The result is that key with all five fields |
| Products.StoredProduct | src/services/product.service.js:61-62 | The inserted row, one key at a time: the five product fields of the payload, nothing else |
| Products.ReturnedProduct | src/services/product.service.js:63 | `{ id, ...product }`: the key plus the five fields |
| Products.UpdateAbsent | src/services/product.service.js:66-73 | An absent id gives null, no removal and no write |
| Products.UpdateWrites | src/services/product.service.js:74-80 | Only the addressed row changes. It takes the product fields the payload defines, and the image only when the new one is truthy |
| Products.UpdateKeepsImage | src/services/product.service.js:74-80 | A falsy new image leaves the stored image as it was and removes no file |
| Products.UpdateRemovesReplacedUpload | src/services/product.service.js:81-88 | A file is removed iff the new image is truthy, the old is truthy, they differ and the old starts with "/public/uploads". The path removed is "." followed by the old image |
| Products.UpdateReturns | src/services/product.service.js:89 | The result is the old row overlaid with the update object, key by key |
| Products.DeleteAbsent | src/services/product.service.js:92-99 | An absent id gives null, no removal and no delete |
| Products.DeleteRemovesRow | src/services/product.service.js:92-108 | Only that row is removed. The result is its image column. A file is removed iff the image is truthy and starts with "/public/uploads" |
| Products.SearchAccepts | src/services/product.service.js:110-123 | A row matches iff its category contains the searched text and, when a name is given, its name contains the name. "All" searches the empty text; an absent category searches "undefined" |
| Products.SearchAllCategories | src/services/product.service.js:111-118 | "All" without a name matches every row whose category is a string |
| Products.ContainsEmpty | src/services/product.service.js:111-117 | The empty text occurs in every text (why "All" lists everything) |
| Products.ProductService.constructor | src/services/product.service.js:6-8 | The service starts over a given valid table |
| Products.ProductService.GetAllProducts | src/services/product.service.js:32-47 | The count is the number of rows; the page is a window of the listed columns (no category) in key order |
| Products.ProductService.GetProductById | src/services/product.service.js:49-54 | Nothing iff the id is absent. Otherwise that row with its key |
| Products.ProductService.CreateProduct | src/services/product.service.js:56-64 | Result and new table are those of `CreateStep` |
| Products.ProductService.UpdateProduct | src/services/product.service.js:66-90 | Result, removed file and new table are those of `UpdateStep` |
| Products.ProductService.DeleteProduct | src/services/product.service.js:92-108 | Result, removed file and new table are those of `DeleteStep` |
| Products.ProductService.SearchProductByCate | src/services/product.service.js:110-140 | Reassigns the category and extends the query. The count is the number of rows the final clause accepts, and the page a window of the rows it lists, each accepted |
| Orders.ReadOrderItem | src/services/order.service.js:14-25 | Exactly the eight order fields of the payload, each as given |
| Orders.OrderItemSchema | src/services/order.service.js:28-39 | The order schema; `CreateNeedsRequired` states that every field but `order_date` is required |
| Orders.OpenItemsOf | src/services/order.service.js:54 | The clause of a user's listing; `OpenItemsMeaning` states which rows it accepts |
| Orders.CreateStep | src/services/order.service.js:41-49 | The result and table of `createOrderItem`; stated by `CreateRejects`, `CreateNeedsRequired` and `CreateStores` |
| Orders.UpdateStep | src/services/order.service.js:104-115 | The result and table of `updateOrderItem`; stated by `UpdateAbsent` and `UpdateWrites` |
| Orders.DeleteStep | src/services/order.service.js:95-102 | The result and table of `deleteOrderItemById`; stated by `DeleteRemovesRow` |
| Orders.OrderField | src/services/order.service.js:14-25 | No order field is the key, `id` or `product_name` |
| Orders.CreateStepOk | src/services/order.service.js:41-49 | Proof helper for `CreateStores`: a valid payload is inserted and returned with the next key |
| Orders.CreateRejects | src/services/order.service.js:41-45 | A failing payload is refused with the first failure and nothing is inserted |
| Orders.CreateNeedsRequired | src/services/order.service.js:28-45 | A payload missing any field but `order_date` is refused and nothing is inserted |
| Orders.CreateStores | src/services/order.service.js:41-49 | A valid payload adds one row under the next key, holding exactly the order fields it defines. The result is that key with all eight fields. No other row changes |
| Orders.StoredItem | src/services/order.service.js:46-47 | The inserted row, one key at a time: the eight order fields of the payload, nothing else |
| Orders.ReturnedItem | src/services/order.service.js:48 | `{ id, ...itemData }`: the key plus the eight fields |
| Orders.OpenItemsMeaning | src/services/order.service.js:53-65 | A row is listed for a user iff its customer id equals the user's and its status is stored as false or 0 |
| Orders.Joined | src/services/order.service.js:61-62 | The join lists at most as many rows as it is given |
| Orders.JoinedItems | src/services/order.service.js:61-62 | Every joined row is one of the items whose product exists, with that product's name added as `product_name` |
| Orders.JoinKeepsAll | src/services/order.service.js:61-62 | When every item's product exists, the join drops none |
| Orders.JoinDropsOrphan | src/services/order.service.js:61-62 | An item whose product is missing is left out of the join |
| Orders.CountMatchesListing | src/services/order.service.js:53-65 | When every matching item's product exists, the count equals the number of listed rows |
| Orders.UpdateAbsent | src/services/order.service.js:109-112 | An absent id gives null and no write |
| Orders.UpdateWrites | src/services/order.service.js:104-115 | The unvalidated payload is written into the addressed row only. The result is the old row overlaid with the payload, key by key |
| Orders.DeleteRemovesRow | src/services/order.service.js:95-102 | An absent id gives null and no delete. Otherwise that row alone is removed and returned as it was |
| Orders.OrderItemsService.constructor | src/services/order.service.js:6-8 | The service starts over a given valid table |
| Orders.OrderItemsService.CreateOrderItem | src/services/order.service.js:41-49 | Result and new table are those of `CreateStep` |
| Orders.OrderItemsService.GetAllOrderItems | src/services/order.service.js:51-70 | The count is the number of the user's open items, over the unjoined table. The page is a window of those items joined to their products, and every item on it is one of the user's open items |
| Orders.ListedOpenItems | src/services/order.service.js:51-62 | Every row of a user's joined listing has that user's `customer_id` and status 0 |
| Orders.OrderItemsService.GetAllOrderItemsAdmin | src/services/order.service.js:72-89 | The count is the number of rows; the page is a window of all items joined to their products |
| Orders.OrderItemsService.DeleteAllOrderItems | src/services/order.service.js:91-93 | The table is emptied |
| Orders.OrderItemsService.DeleteOrderItemById | src/services/order.service.js:95-102 | Result and new table are those of `DeleteStep` |
| Orders.OrderItemsService.UpdateOrderItem | src/services/order.service.js:104-115 | Result and new table are those of `UpdateStep` |
| Orders.OrderItemsService.GetOrderItemById | src/services/order.service.js:117-119 | Nothing iff the id is absent. Otherwise that row with its key |
| Schema.ValidateAccepts | src/services/customer.service.js:29-38 | Validation succeeds iff every rule passes and no key outside the schema is present |
| Schema.ValidateReportsFirst | src/services/order.service.js:42-44 | A key failure names the first failing rule of the schema, with its issue |
| Schema.MissingRequired | src/services/order.service.js:30-37 | A missing required key fails validation |
| Schema.RequiredPass | src/services/customer.service.js:31-36 | A passing required rule means the key holds a value of its kind |
| Schema.FirstFailing | src/services/order.service.js:42 | The index found fails its rule |
| Schema.FirstFailingNone | src/services/order.service.js:42 | No index is found iff every rule passes. Every rule before the index found passes |
| Table.MatchingCount | src/services/product.service.js:125-132 | `count()` over a clause equals the number of rows the same clause lists |
| Table.MatchingExactly | src/services/product.service.js:114-132 | A key is listed iff its row is stored, accepted and in range |
| Table.FirstSpec | src/services/customer.service.js:116-118 | `first()` finds nothing iff no row is accepted, and otherwise the accepted row with the smallest key |
| Table.FirstIsFirst | src/middleware/authentication.middleware.js:38-41 | `first()` gives a key iff that key holds the smallest accepted row |
| Table.FirstByKey | src/services/order.service.js:117-119 | A lookup by primary key finds exactly that key when it is stored |
| Table.GetWrite | src/services/order.service.js:113 | A column after an update: the written value when the data defines one, else the old one |
| Table.UpdateFrame | src/services/order.service.js:113 | An update of a stored row changes that row only |
| Table.InsertFrame | src/services/order.service.js:47 | An insert adds one row under the next key and changes no other |
| Table.InsertThenUpdateFrame | src/services/customer.service.js:81-110 | An insert followed by an update of the new row adds that one row, holding both writes |
| Table.Window | src/services/product.service.js:131-132 | `offset/limit` gives at most `limit` consecutive rows starting at `offset` |
| Js.Length | src/services/customer.service.js:34 | JavaScript's `length`, in UTF-16 code units: between the number of characters and twice it, and 0 only for the empty text |
| Js.LengthBmp | src/services/customer.service.js:34 | Text of Basic Multilingual Plane characters has as many code units as characters |
| Js.LengthAstral | src/services/customer.service.js:34 | Text of characters outside that plane has twice as many code units as characters |
| Js.Pick | src/services/product.service.js:14-22 | An object literal of chosen keys holds exactly those keys, with the source's values |
| Js.JoinSplit | src/middleware/authentication.middleware.js:15 | Joining the split fields gives the header back |
| Js.SplitPieces | src/middleware/authentication.middleware.js:15 | No field holds the separator. The first field is the text before the first separator |
| Js.ContainsAt | src/services/product.service.js:114-122 | A text occurring at some position matches `LIKE '%t%'` |
| Js.ContainsWitness | src/services/product.service.js:114-122 | A `LIKE '%t%'` match occurs at some position |

## Left out

- Cryptography: tokens, hashes and Joi's recognition of emails, numeric text and date text are function parameters. Salting, expiry inside a token, and the secret fallbacks (the services sign with a fallback secret; the gate verifies with `JWT_SECRET` alone) are not modelled.
- Joi conversion: the payload stored is the one given, not Joi's converted value. A boolean given as the text "true" is stored as that text. Case-insensitive boolean text is not modelled.
- SQL comparison: values compare by constructor, with booleans as 1 and 0. String/number coercion, collation and the case-insensitivity and wildcard characters of `LIKE` are not modelled.
- Row order: every scan is in ascending key order, and `first()` is the smallest accepted key. With the unjoined count, a listing is a window over that order. No `ORDER BY` is written, so the order a real database gives is not modelled.
- knex errors: an update whose data has no defined column throws, and so does a binding of `undefined` in a `where`. Neither is modelled. A write of the primary-key column is dropped, never re-keying the row. Unknown columns are stored as given. The login email is a string: a `null` email, which knex turns into `email IS NULL`, or a number reaching `login` unchecked from the request body is not modelled.
- Insert results: `insert()` is taken to return the new key as a number. The `returning('*')` of the order insert, and keys arriving as strings, are not modelled.
- Paginator arithmetic: `getMetadata(count)` is not modelled; only the count handed to it is. The offset and limit are a given window.
- Files: `unlink` is recorded as the path it is asked to remove. That it is asked only once, and its callback, are not modelled. A stored image that is not a string is never removed here, where JavaScript's `startsWith` would throw.
- Authentication.Authenticate: a `next()` that throws inside the first `try` is caught by the same `catch` and answered with 403. A `next()` that throws after a refresh is caught by the inner `catch` and answered with 500 "Could not refresh access token.". Neither is modelled; `next()` is the end of the call.
- Authentication.Authenticate: `new Date()` is the parameter `now`, and a failing refresh query is the parameter `storeUp`.
- Customers.CustomerService.Register: the services' queries and `jwt.sign` are taken never to fail (in `Register` and in `Login` alike). In the source `register` inserts the row first and only then signs and writes the refresh pair. A `jwt.sign` that throws, for instance because `JWT_EXPIRY` is not a valid timespan, or a failing refresh update, leaves the row inserted without a refresh pair. A retry with the same payload is then refused with "Email is already in use.". The model always completes both writes.
- Ids: route ids are modelled as naturals. The source receives them as strings from the route, and `UpdateCustomer` echoes its `id` back as given, so it returns the text "5" where the model returns the number 5.
- Customers.CustomerService.Register: the email lookup and the insert are separate statements; the race between two registrations is not modelled.
- Table columns: the tables' column lists and defaults are not part of the source, so a row holds only the columns written to it. `SELECT *` of a column never written gives no entry here, where a database gives NULL or the column's default.
- Keys: `Other(name)` stands for a column the services do not name. That its name differs from every named column is assumed throughout, not enforced.
- Customers.RefreshTokenExpiration: the expiry is now plus 7 × 24 hours. `setDate(getDate() + 7)` adds 7 local calendar days, which is an hour more or less across a daylight-saving change; that is not modelled.
- Floating point: prices and totals are stored and compared, never computed, so they are reals.
- `console.log`, the HTTP plumbing around the services, and multer uploads are not modelled.
