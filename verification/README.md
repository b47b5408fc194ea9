# Sweet Shop, modelled in Dafny

The Sweet Shop is a small web shop for sweets. An Express/Knex backend keeps a `sweets`
table, a `users` table and an append-only `purchase_history` ledger. A React frontend keeps a
copy of the catalog, a shopping cart mirrored into local storage, and forms for
registration and for adding sweets. This project models the parts of the shop that make
decisions and proves what they promise:

- **Server catalog and ledger** (`Inventory`, `History`). The tables are the fields of the
  class `Catalog`: a map from id to row and a sequence of ledger rows. Each route handler
  is a method: create, update, delete, purchase and restock. Search is a read-only
  function: a conjunction of `where` conditions over a table scan in id order. The
  purchase history is a pure join, filter and newest-first sort.
- **Authentication** (`Guard`, `Accounts`). `protect` parses the bearer header and `admin`
  gates on the role. Registration appends one user row and login checks the password.
  Hashing, hash comparison, token signing and token verification are function parameters.
- **Client cart and checkout** (`ShoppingCart`, `Checkout`). `addToCart` is specified by
  the function `Added`, and the class `Cart` applies it. `handlePurchase` is a loop of
  purchase calls against the server model. The function `Run` specifies it: the calls go
  through in cart order up to the first failure.
- **Client catalog list, filters and forms** (`SweetList`, `Dashboard`, `SweetCard`,
  `SweetDetails`, `AddSweetForm`, `RegisterPage`). Each context or page operation calls the
  server model and then applies a pure list transform. The dashboard filter is proved to
  agree with the server search, and the category list is proved to be the unique sorted,
  repeat-free list of categories. The add-sweet validation, the password rules and the
  add-to-cart guards are modelled as well.

Shared values live in `Wrappers` (`Option`), `Http` (a reply: status and body, or status
and message), `Messages` (the toast notice), `Domain` (`Sweet`, `Filter`), `Text` (ASCII
case folding, substring search, splitting on spaces, decimal rendering) and `ById`
(filtering a list by key).

The network is not modelled. A client operation takes the server object and the verdict
of `protect` for its request (`auth`). A failing call that has no server-side cause (a
network error, a reload that fails) is a boolean parameter. The page states React keeps
are class fields. A toast is the returned `Notice`, and a navigation is a returned path.

## Model

| member | source | states |
|---|---|---|
| Guard.Protect | backened/middleware/auth.js:3-26 | A missing header, or one not starting with "Bearer", is refused with 401 "no token". The caller passes exactly when the header starts with "Bearer", has a non-empty second field and that field verifies; the caller is then the verified identity. Every other refusal is 401 "token failed". |
| Guard.BearerToken | backened/middleware/auth.js:9 | `split(' ')[1]`: there is a second field exactly when the header holds a space, and that field never holds one. |
| Guard.BearerHeader | backened/middleware/auth.js:9 | For the header "Bearer t" (t non-empty, without spaces) exactly t is handed to the verifier: the caller passes with t's identity, or is refused with 401 "token failed". |
| Guard.Admin | backened/middleware/auth.js:28-36 | Passes exactly when the role is "admin", with the same caller; otherwise 403 "Not authorized as an admin". |
| Guard.ThenAdmin | backened/routes/sweets.js:79 | The chain `protect, admin`: passes exactly when `protect` passed and the role is "admin"; a refusal by `protect` is the answer. |
| Text.Lower | frontend/incubyte/src/pages/Dashboard.jsx:17 | Same length; every character is its ASCII lower-case form. |
| Text.ContainsIff | backened/routes/sweets.js:17 | The substring test holds exactly when the needle occurs at some position of the text. |
| Text.Split | backened/middleware/auth.js:9 | `split(' ')` gives at least one field, and no field contains a space. |
| Text.JoinSplit | backened/middleware/auth.js:9 | Joining the fields with single spaces gives back the header. |
| Text.SplitJoin | backened/middleware/auth.js:9 | Splitting a join of space-free fields gives back the fields. |
| Text.SplitAfterWord | backened/middleware/auth.js:9 | A space-free word, a space and a rest split into the word followed by the rest's fields. |
| Text.SplitWord | backened/middleware/auth.js:9 | A space-free text is a single field. |
| Text.SplitOneField | backened/middleware/auth.js:9 | A text is a single field exactly when it holds no space. |
| Inventory.MergeWithoutId | backened/routes/sweets.js:60-71 | Once the payload's id is dropped, the update keeps the row's id. Each supplied column takes the payload's value and every other column keeps its value. An empty payload changes nothing. |
| Inventory.Merge | backened/routes/sweets.js:65 | The `UPDATE ... SET` of the supplied columns: each supplied column takes the payload value and the rest keep theirs, as `MergeWithoutId` states. |
| Inventory.QuantityOr | backened/routes/sweets.js:97 | `Number(q) \|\| d`: a non-zero fallback gives a non-zero quantity, and a negative quantity is used as it is. |
| Inventory.BuildQuery | backened/routes/sweets.js:13-31 | At most one `where` per filter, and no condition at all exactly when no filter is set; its meaning is stated by `QueryMeaning`. |
| Inventory.QueryMeaning | backened/routes/sweets.js:13-33 | A row satisfies the built query exactly when its name contains `q` ignoring case, its category equals `category` and `min <= price <= max`. An unset filter constrains nothing. |
| Inventory.AllOfConcat | backened/routes/sweets.js:13-33 | Chained `where` conditions combine with AND. |
| Inventory.Scan | backened/routes/sweets.js:33 | The scan returns rows of the table, each selected by the query, in strictly ascending id order, and it misses no selected row. |
| Inventory.PurchasedConcat | backened/routes/sweets.js:116-120 | The ledger's per-sweet purchased total adds up over appended rows. |
| Inventory.BoughtKeepsStockNonNegative | backened/routes/sweets.js:107-113 | A sale that passes the stock check keeps every stock non-negative and changes no other row. |
| Inventory.PurchaseRefusal | backened/routes/sweets.js:94-112 | The message of a refused purchase: `protect`'s refusal, then "Sweet not found", then "Insufficient stock", in the handler's order; `Catalog.Purchase` answers with exactly these. |
| Inventory.Catalog.constructor | backened/db/setup.js:41-66 | Empty tables; the first id handed out is 1. |
| Inventory.Catalog.Search | backened/routes/sweets.js:8-39 | Returns every row the filters select and no other, each as stored, in ascending id order (the table-scan order; the handler sets no `ORDER BY`). |
| Inventory.Catalog.Create | backened/routes/sweets.js:47-57 | For a body without an id that holds every column, any authenticated caller, admin or not, gets 201 with the row stored under a fresh id. An unauthenticated caller gets `protect`'s refusal and nothing changes. |
| Inventory.Catalog.Update | backened/routes/sweets.js:60-76 | A missing id gives 404 and nothing changes. Otherwise only that row changes, to the payload merged without its id, so the id stays. |
| Inventory.Catalog.Delete | backened/routes/sweets.js:79-91 | A non-admin gets 403 and a missing id 404, both with the table unchanged. Otherwise the row is gone and the reply is 204. The ledger is kept. |
| Inventory.Catalog.Purchase | backened/routes/sweets.js:94-129 | The quantity is `Number(q) \|\| 1`. A missing sweet gives 404 and low stock 400, both with stock and ledger unchanged. Otherwise the stock drops by exactly the quantity, exactly one ledger row (caller, id, quantity, time) is appended and the reply is the updated row. Stock plus recorded purchases is conserved for every sweet, and non-negative stock stays non-negative. |
| Inventory.Catalog.Restock | backened/routes/sweets.js:131-152 | The quantity is `Number(q) \|\| 10`. A non-admin gets 403 and a missing sweet 404, both without change. Otherwise the stock rises by the quantity, with no cap and no ledger row. |
| Accounts.RoleFor | backened/routes/auth.js:32 | The role is "admin" exactly for "admin@shop.com" and "user" otherwise. |
| Accounts.GenerateToken | backened/routes/auth.js:6-12 | The token is the signature over `{id, email, role}` with a 30-day expiry; `TokenIgnoresProfile` states that nothing else enters it. |
| Accounts.TokenIgnoresProfile | backened/routes/auth.js:6-12 | The token depends only on id, email and role (30-day expiry); name and mobile are not signed. |
| Accounts.FindByEmail | backened/routes/auth.js:24 | Finds a row with that email exactly when one exists. |
| Accounts.FindUnique | backened/db/setup.js:32 | With unique emails, the lookup returns the one row with the email. |
| Accounts.Login | backened/routes/auth.js:48-72 | An empty email or password gives 400. An unknown email and a wrong password both give the same 401 "Invalid credentials". Success is 200 with `{id, name, email, role}`, without the hash, and the token over `{id, email, role}`. The table is only read. |
| Accounts.Users.constructor | backened/db/setup.js:29-36 | An empty users table. |
| Accounts.Users.Register | backened/routes/auth.js:15-46 | An empty field gives 400 "Please enter all fields" and a known email 400 "User already exists", both without change. Otherwise exactly one row is appended, holding the hash and the role for the email, and the reply is 201 with `{id, name, email, mobile, role}` and its token. Emails stay unique. |
| Accounts.RegisterThenLogin | backened/routes/auth.js:48-72 | An appended user logs in with its password and receives the role registration gave it. |
| History.JoinedRows | backened/routes/profile.js:13-23 | The join holds exactly the rows produced from the caller's own ledger rows whose sweet exists, with the ledger's sweet id, quantity and date and the sweet's name, image and price. |
| History.Joined | backened/routes/profile.js:13-23 | The inner join of the caller's ledger rows with the sweets table, in ledger order; `JoinedRows` states exactly which rows it holds. |
| History.InsertByDate | backened/routes/profile.js:24 | Insertion adds exactly the one row. |
| History.InsertNotAfter | backened/routes/profile.js:24 | Insertion keeps an upper bound on the dates. |
| History.InsertSorted | backened/routes/profile.js:24 | Insertion keeps a newest-first list newest first. |
| History.SortNewestFirst | backened/routes/profile.js:24 | The result is newest first and a permutation of the input. |
| History.History | backened/routes/profile.js:13-24 | The joined rows sorted newest first; `HistoryContents` states its order and contents. |
| History.HistoryContents | backened/routes/profile.js:13-24 | The history is newest first, as long as the join, and holds exactly the caller's rows whose sweet exists. |
| History.DeletedSweetOmitted | backened/routes/profile.js:14 | A deleted sweet appears in no history, although its ledger rows remain. |
| History.HistoryRoute | backened/routes/profile.js:6-32 | Without `protect`'s approval the refusal is the answer. Otherwise 200 with all and only the caller's own ledger rows whose sweet still exists, joined with that sweet, newest first, as many as the join yields. |
| ById.Without | frontend/incubyte/src/context/SweetContext.jsx:38 | Filtering never lengthens the list. |
| ById.WithoutMembers | frontend/incubyte/src/context/CartContext.jsx:71 | The survivors are exactly the elements whose key is not the id. |
| ById.WithoutConcat | frontend/incubyte/src/context/CartContext.jsx:71 | Filtering keeps the survivors in their order. |
| ById.WithoutAbsent | frontend/incubyte/src/context/CartContext.jsx:71 | Removing an id no element has changes nothing. |
| ById.WithoutIdempotent | frontend/incubyte/src/context/CartContext.jsx:70-74 | Removing the same id twice is the same as once. |
| ById.WithoutDistinct | frontend/incubyte/src/context/CartContext.jsx:71 | Removal keeps the keys distinct. |
| ShoppingCart.Find | frontend/incubyte/src/context/CartContext.jsx:33 | The index of the first line with the id, or none when no line has it. |
| ShoppingCart.SetQuantity | frontend/incubyte/src/context/CartContext.jsx:44-48 | The `map` keeps the number of lines. |
| ShoppingCart.SetQuantityLines | frontend/incubyte/src/context/CartContext.jsx:44-48 | Lines with another id are untouched. Lines with the id change in their quantity only. |
| ShoppingCart.SetQuantityAbsent | frontend/incubyte/src/context/CartContext.jsx:44-48 | Without a line for the id, the list is unchanged. |
| ShoppingCart.TotalPrice | frontend/incubyte/src/context/CartContext.jsx:82 | `cartTotal`: the sum of price times quantity over the lines; `TotalsConcat` and `SetQuantityPrice` state how it moves. |
| ShoppingCart.TotalItems | frontend/incubyte/src/context/CartContext.jsx:83 | `totalItems`: the sum of the quantities; `TotalsConcat`, `SetQuantityItems` and `AddedKeepsDistinct` state how it moves. |
| ShoppingCart.TotalsConcat | frontend/incubyte/src/context/CartContext.jsx:82-83 | Both the total price (sum of line totals) and the total weight (sum of quantities, also shown by the cart page) add up over a split of the list. |
| ShoppingCart.SetQuantityItems | frontend/incubyte/src/context/CartContext.jsx:83 | Changing the one line with the id moves the total weight by that line's change. |
| ShoppingCart.SetQuantityPrice | frontend/incubyte/src/context/CartContext.jsx:82 | Changing the one line with the id moves the total price by its price times the change. |
| ShoppingCart.AddNote.Render | frontend/incubyte/src/context/CartContext.jsx:40-66 | The four add-to-cart messages; a message is a success exactly for the two adds that went through. |
| ShoppingCart.Added | frontend/incubyte/src/context/CartContext.jsx:30-66 | A message is shown exactly when the quantity is positive, and the list grows by at most one line; `AddedAccepts`, `AddedMerges`, `AddedAppends`, `AddedKeepsDistinct` and `AddedWithinStock` state the rest. |
| ShoppingCart.AddedAccepts | frontend/incubyte/src/context/CartContext.jsx:28-68 | A quantity <= 0 changes nothing and shows nothing. An add goes through exactly when the merged total fits the stock seen (existing line) or the quantity does (new line); otherwise the list is unchanged. |
| ShoppingCart.AddedMerges | frontend/incubyte/src/context/CartContext.jsx:36-49 | An accepted add for a sweet in the cart sets that line to the sum. |
| ShoppingCart.AddedAppends | frontend/incubyte/src/context/CartContext.jsx:53-65 | An accepted add for a new sweet appends `{id, name, price, image, quantity}` at the end. |
| ShoppingCart.AddedKeepsDistinct | frontend/incubyte/src/context/CartContext.jsx:28-68 | An accepted add keeps one line per sweet id and raises the total weight by exactly the quantity. |
| ShoppingCart.SetQuantityDistinct | frontend/incubyte/src/context/CartContext.jsx:44-48 | Changing a quantity keeps the ids distinct. |
| ShoppingCart.AppendDistinct | frontend/incubyte/src/context/CartContext.jsx:65 | Appending a line with a new id keeps the ids distinct. |
| ShoppingCart.AddedWithinStock | frontend/incubyte/src/context/CartContext.jsx:36-65 | After an accepted add the sweet's line is within the stock seen, and every other line stays as it was, in place. |
| ShoppingCart.Cart.constructor | frontend/incubyte/src/context/CartContext.jsx:7-16 | The stored list, or an empty cart when nothing readable is stored. |
| ShoppingCart.Cart.Save | frontend/incubyte/src/context/CartContext.jsx:23-26 | The list is replaced and the stored copy equals it. |
| ShoppingCart.Cart.AddToCart | frontend/incubyte/src/context/CartContext.jsx:28-68 | The list becomes `Added`'s and the notice is its message. The list is saved exactly when the add went through; otherwise storage is untouched. |
| ShoppingCart.Cart.RemoveFromCart | frontend/incubyte/src/context/CartContext.jsx:70-74 | Every line with the id is gone, the rest keep their order, ids stay distinct, storage is in sync, and the notice is "Item removed from cart.". |
| ShoppingCart.Cart.ClearCart | frontend/incubyte/src/context/CartContext.jsx:76-79 | The cart and its stored copy are empty, both totals are 0, and the notice is "Cart cleared.". |
| SweetList.ReplaceById | frontend/incubyte/src/context/SweetContext.jsx:33 | Same length. Elements with the id become the new one and all others stay, in place. |
| SweetList.ReplaceKeepsIds | frontend/incubyte/src/context/SweetContext.jsx:33 | A replacement carrying the id keeps every id in place and is idempotent. |
| SweetList.MessageOr | frontend/incubyte/src/context/SweetContext.jsx:60 | The server's message when there is one, otherwise the default, so the result is never empty when the default is not. |
| SweetList.SweetStore.constructor | frontend/incubyte/src/context/SweetContext.jsx:9-10 | An empty list, not loading. |
| SweetList.SweetStore.LoadSweets | frontend/incubyte/src/context/SweetContext.jsx:14-24 | On success the list is the server's unfiltered search: each element is the stored row and every row appears. A failed call keeps the list. Loading is off afterwards either way. |
| SweetList.SweetStore.AddSweet | frontend/incubyte/src/context/SweetContext.jsx:26-29 | On success the stored row, under a fresh id, is prepended, and the server table gains exactly that row with every other row kept. The ledger never changes. On failure nothing changes. |
| SweetList.SweetStore.UpdateSweet | frontend/incubyte/src/context/SweetContext.jsx:31-34 | Success exactly for an authenticated caller and a known id. The server row becomes the old row merged with the payload without its id, every other row is kept, and the element with the id becomes that row with all ids in place. The ledger and the next id never change; on failure nothing changes. |
| SweetList.SweetStore.DeleteSweet | frontend/incubyte/src/context/SweetContext.jsx:36-39 | Success exactly for an admin and a known id. Exactly that row leaves the table and every element with the id leaves the list. The ledger and the next id never change; on failure nothing changes. |
| SweetList.SweetStore.PurchaseSweet | frontend/incubyte/src/context/SweetContext.jsx:41-64 | Without a user: `{ok: false, "User not logged in"}` and no call. Otherwise `ok` holds exactly when the caller is authenticated and the stock covers `Number(qty) \|\| 1`. On success the stock drops by that quantity, the element becomes the server's row after the sale, one ledger row is added and the success message names the sweet. On failure the list, stock and ledger are unchanged and the message is the server's refusal, or the default when that is empty. |
| SweetList.SweetStore.RestockSweet | frontend/incubyte/src/context/SweetContext.jsx:66-69 | Success exactly for an admin and a known id. Only that row's stock changes, rising by `Number(q) \|\| 10`, with its other fields and every other row kept; the element becomes the restocked row. The ledger and the next id never change. |
| Checkout.Run | frontend/incubyte/src/pages/Cart.jsx:32-40 | No more calls succeed than there are lines, and the table keeps its ids. |
| Checkout.RunStopsAtFirstFailure | frontend/incubyte/src/pages/Cart.jsx:32-40 | The lines before the stop all went through, and the line where it stopped could not be bought from the table at that point. |
| Checkout.RunConservesStock | frontend/incubyte/src/pages/Cart.jsx:32-36 | For every sweet, the stock afterwards plus what the successful lines bought equals the stock before. Non-negative stock stays non-negative whatever the cart holds. |
| Checkout.Appended | frontend/incubyte/src/pages/Cart.jsx:32-36 | The ledger rows of the first n successful calls: n rows for an authenticated caller, none for a refused one. |
| Checkout.AppendedRows | frontend/incubyte/src/pages/Cart.jsx:32-36 | The i-th appended row records the caller, line i's sweet id and quantity, and the time of the i-th call. |
| Checkout.RunGoesOn | frontend/incubyte/src/pages/Cart.jsx:32-36 | A line that can be bought is sold and the loop continues from the next line. |
| Checkout.RunStops | frontend/incubyte/src/pages/Cart.jsx:55-58 | A line that cannot be bought ends the loop with the table as it was. |
| Checkout.CartPage.constructor | frontend/incubyte/src/pages/Cart.jsx:19 | Not processing. |
| Checkout.CartPage.PurchaseDisabled | frontend/incubyte/src/pages/Cart.jsx:113 | The Purchase button is disabled for an empty cart or while a checkout runs; `HandlePurchase` states it is off for a non-empty cart after a checkout. |
| Checkout.Receipt | frontend/incubyte/src/pages/Cart.jsx:50 | The success toast quoting the cart total. |
| Checkout.CartPage.BuyLine | frontend/incubyte/src/pages/Cart.jsx:33-36 | One purchase request with the line's quantity succeeds exactly when the stock check passes. On success it sells and appends one ledger row; on failure nothing changes and the reply carries the server's refusal message. The next id never changes. |
| Checkout.CartPage.BuyEach | frontend/incubyte/src/pages/Cart.jsx:32-40 | The loop ends in the state `Run` describes, with one ledger row per successful call. It fails exactly when it stopped early, and the failure is the refusal message for the line where it stopped, or the default when that message is empty. The next id never changes. |
| Checkout.CartPage.HandlePurchase | frontend/incubyte/src/pages/Cart.jsx:21-62 | Without a user: an error, `/login`, no call, nothing changed. Otherwise the purchases of `Run` and their ledger rows, with nothing rolled back. If all succeed: cart cleared, catalog reloaded, receipt with the earlier total, `/dashboard`. If one fails: cart and list as they were, and the error shown is the failing response's message, or the default when it is empty. Processing is off at the end, and the button is disabled exactly for an empty cart. The next id never changes. |
| Dashboard.MatchesMirrorsSearch | frontend/incubyte/src/pages/Dashboard.jsx:16-24 | `matches` holds exactly when the server's query selects the sweet: case-insensitive name containment, exact category and inclusive price bounds, all combined with AND. |
| Dashboard.Matches | frontend/incubyte/src/pages/Dashboard.jsx:16-24 | `matches(s)`: each set filter can reject the sweet; `MatchesMirrorsSearch` states it as a conjunction equal to the server query. |
| Dashboard.Visible | frontend/incubyte/src/pages/Dashboard.jsx:69 | The grid holds exactly the catalog's matching sweets. |
| Dashboard.VisibleConcat | frontend/incubyte/src/pages/Dashboard.jsx:69 | The grid keeps catalog order. |
| Dashboard.NoMatchNote | frontend/incubyte/src/pages/Dashboard.jsx:77 | The note shows exactly when loading is over and no sweet matches. |
| Dashboard.BelowIrreflexive | frontend/incubyte/src/pages/Dashboard.jsx:14 | The sort order is irreflexive. |
| Dashboard.BelowTransitive | frontend/incubyte/src/pages/Dashboard.jsx:14 | The sort order is transitive. |
| Dashboard.BelowTotal | frontend/incubyte/src/pages/Dashboard.jsx:14 | The sort order is total on distinct strings. |
| Dashboard.Insert | frontend/incubyte/src/pages/Dashboard.jsx:14 | Inserting adds the category and nothing else. |
| Dashboard.InsertSorted | frontend/incubyte/src/pages/Dashboard.jsx:14 | Inserting keeps the list sorted without repeats. |
| Dashboard.HasCategoryCons | frontend/incubyte/src/pages/Dashboard.jsx:14 | The categories of a catalog are its first sweet's and those of the rest. |
| Dashboard.Categories | frontend/incubyte/src/pages/Dashboard.jsx:14 | Sorted, without repeats, and holding exactly the catalog's categories. |
| Dashboard.SortedUnique | frontend/incubyte/src/pages/Dashboard.jsx:14 | A sorted repeat-free list is fixed by its elements, so the category list is the only such list. |
| SweetCard.MaxPurchase | frontend/incubyte/src/components/SweetCard.jsx:11-12 | At least 1: the stock when positive, else 1 (also the details page's bound). |
| SweetCard.IsDisabled | frontend/incubyte/src/components/SweetCard.jsx:22 | When enabled, the quantity lies between 1 and the input's maximum. |
| SweetCard.ButtonLabel | frontend/incubyte/src/components/SweetCard.jsx:53 | "Out of stock" exactly when the stock is not positive. |
| SweetCard.CardState.constructor | frontend/incubyte/src/components/SweetCard.jsx:9 | The quantity starts at 1. |
| SweetCard.CardState.HandleAddToCart | frontend/incubyte/src/components/SweetCard.jsx:14-20 | Adds exactly when stock and quantity are positive, without comparing them; the cart checks that. The stored cart is saved exactly when the add went through and is otherwise untouched. The quantity then resets to 1; otherwise nothing changes. |
| SweetDetails.Lookup | frontend/incubyte/src/pages/SweetDetails.jsx:15 | The first entry with the route's id; none ("No sweet found") for a non-numeric id or one no entry has. |
| SweetDetails.DetailsPage.constructor | frontend/incubyte/src/pages/SweetDetails.jsx:17 | The quantity starts at 1. |
| SweetDetails.DetailsPage.HandleAddToCart | frontend/incubyte/src/pages/SweetDetails.jsx:25-29 | Adds exactly when the button is enabled, and keeps the chosen quantity. The stored cart is saved exactly when the add went through and is otherwise untouched. |
| SweetDetails.EnabledAddFits | frontend/incubyte/src/pages/SweetDetails.jsx:23-28 | Through the enabled button, an add of a sweet not yet in the cart goes through and appends its line. |
| AddSweetForm.AddSweetPage.constructor | frontend/incubyte/src/pages/AddSweet.jsx:10-12 | The form as given, with no errors. |
| AddSweetForm.BadPrice | frontend/incubyte/src/pages/AddSweet.jsx:30-33 | The price check: empty, not a number, or not positive. |
| AddSweetForm.BadQuantity | frontend/incubyte/src/pages/AddSweet.jsx:36-39 | The quantity check: empty, not a number, or negative. |
| AddSweetForm.Acceptable | frontend/incubyte/src/pages/AddSweet.jsx:25-39 | A form no check rejects; `Validate` returns true exactly for such a form. |
| AddSweetForm.AddSweetPage.Validate | frontend/incubyte/src/pages/AddSweet.jsx:21-43 | Name, category and description each have an error exactly when empty. Price has one exactly when empty, not a number or <= 0, and quantity exactly when empty, not a number or < 0. Image is never checked. The messages are the source's, and the result is true exactly when the error map is empty. |
| AddSweetForm.AddSweetPage.Submit | frontend/incubyte/src/pages/AddSweet.jsx:46-58 | An invalid form shows the fix-errors message and sends nothing. A valid form sends its fields once, with price and quantity as numbers, and moves to `/admin` when the call succeeds. For an authenticated caller the stored row is exactly the form's fields under an id not in the old table, prepended to the list, and the table gains that row; a refused caller changes nothing. The ledger never changes. |
| RegisterPage.ScanMeaning | frontend/incubyte/src/pages/Register.jsx:10 | The left-to-right scan accepts exactly a non-empty, single-line text with a lower-case letter, an upper-case letter and a digit. |
| RegisterPage.MatchesPattern | frontend/incubyte/src/pages/Register.jsx:10 | `PASSWORD_REGEX.test(p)`, decided by a left-to-right scan; `PatternMeaning` states what it accepts. |
| RegisterPage.PatternMeaning | frontend/incubyte/src/pages/Register.jsx:10 | The password pattern matches exactly the passwords with all three character classes on one line. |
| RegisterPage.ValidatePassword | frontend/incubyte/src/pages/Register.jsx:12-20 | Under 8 characters: the length message. Otherwise, without the three classes: the complexity message. No message exactly when both rules hold. |
| RegisterPage.RegisterPageState.constructor | frontend/incubyte/src/pages/Register.jsx:28 | No error shown. |
| RegisterPage.RegisterPageState.Handle | frontend/incubyte/src/pages/Register.jsx:30-59 | A mismatched confirmation is reported first and stops. A password error is reported next and stops. Only then is `{name, email, mobile, password}` sent, without the confirmation. Success welcomes the user and moves to `/dashboard`; failure shows the response's message, or "Registration failed. Please try again." when it is empty. |

## Left out

- Password hashing and comparison (bcrypt) and token signing and verification (JWT) are
  function parameters. Their behaviour is assumed only where a lemma says so.
- The Knex/SQLite layer is not part of this model. This covers the schema creation and the
  seed data in `backened/db/setup.js`, and the server wiring. The tables are a map and a
  sequence; a deleted row's id is never reused (autoincrement).
- Inventory.Catalog.Delete: the foreign key's `RESTRICT` on ledger rows is not modelled as
  enforced. A sweet with purchases can be deleted, and its ledger rows are kept.
- Requests are sequential and atomic. The read-then-write race in purchase and the lack of
  a transaction in checkout belong to concurrency.
- Prices are integers; the table's float prices and fractional quantities are not modelled.
  `Number()` is an abstract parse to an optional integer, where `None` stands for NaN.
  Because of this, the NaN that passes `addToCart`'s `<= 0` guard is not modelled.
- Inventory.Catalog.Search: `%` and `_` inside `q` are matched as plain characters, and case
  folding covers ASCII letters only. A NaN price bound is not modelled. The ascending id order
  is the table-scan order the database gives in practice, not a promise of the handler.
- Dashboard.MatchesMirrorsSearch: the client filter and the server search agree under these
  same abstractions only; a real `LIKE` and `includes` disagree on a `q` such as "a_c", and on
  non-ASCII letters.
- Inventory.Catalog.Create: the body is inserted as sent, but the model's body has no `id`
  and always holds every column. A body carrying a free id is stored under that id, and one
  carrying a taken id, lacking a required column or naming an unknown column gets 500 "Error
  adding sweet"; neither is modelled. The add-sweet form never sends such a body (see
  `AddSweetForm.FieldsOf`).
- Inventory.Catalog.Update: an empty payload (after the id is dropped) is a no-op update that
  returns the row; how the query builder treats an empty update is not part of this
  model. Unknown columns and malformed values (a 500 reply) are not modelled either.
- Guard.Protect: for a header that starts with "Bearer" but has no second space-separated
  field, or an empty one ("Bearer", "BearerX", "Bearer ", "Bearer  t"), the middleware answers
  twice; the model gives the first answer, 401 "token failed".
- The GET `/` redirect to `/search` is not modelled.
- Local storage is the `stored` field of the cart. Axios, its token interceptor, and the
  user record kept by the auth context are not modelled. A call's token appears as `auth`,
  and being logged in as `loggedIn`.
- The toast timer is not modelled. A toast is the returned notice; only the last one of an
  operation is visible, as in the source, where a new message replaces the current one.
- Rendering, routing and the pages that only delegate or format are not modelled: home,
  login, profile display, edit and admin panel.
- History.SortNewestFirst: rows with equal dates keep ledger order. The SQL order of ties is
  unspecified, so this is one of the allowed orders.
- RegisterPage.ValidatePassword: lengths count characters, whereas JavaScript counts UTF-16
  units; the two differ only for characters outside the Basic Multilingual Plane.
- Dashboard.Categories: strings are compared by character, whereas JavaScript's `sort()`
  compares UTF-16 units; the orders differ only outside the Basic Multilingual Plane.
- Checkout.CartPage.HandlePurchase: each call's ledger date is `clock(i)`. The processing
  flag being on while the calls run is not observable in a sequential model, so only its
  final value is stated.
- SweetList.SweetStore.LoadSweets: a failed load (network or server error) is the parameter
  `failed`.
- SweetList.SweetStore.AddSweet: `addSweet`, `updateSweet`, `deleteSweet` and
  `restockSweet` throw on a failed request and leave the list alone. The model returns the
  failed reply, with the list unchanged.
- AddSweetForm.AddSweetPage.Submit: a failed request rejects the awaited call in the source,
  so the navigation is skipped. The model returns no navigation instead of an unhandled
  rejection.
