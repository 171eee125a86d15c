# Wine inventory backend — a Dafny model

This project models the core of a wine-distribution inventory service. The
service keeps a catalogue of wines ("products"), the shop's branches, a stock
ledger of how many units of each wine each branch holds, an append-only log of
stock movements between branches, and users, customers and OAuth clients.

Every table is a map from primary key to record (`Models.Database`). The
movement log is a sequence in insertion order. The constraints the database
enforces when a transaction commits are one predicate,
`Models.SatisfiesConstraints`:

- stock rows reference an existing product and branch;
- a (product, branch) pair has at most one row;
- quantities are never negative;
- names, usernames, emails and client ids are unique where the schema says so;
- texts fit their column widths.

A request runs against a `Db.Session`, a class with one field per table.
Handlers change those fields in place and then call `Commit`. `Commit` keeps
the changes when they satisfy the constraints. Otherwise it restores the state
the request started from, which is what the handlers' `rollback` does. So every
handler is:

- an imperative `method` on the session, and
- a pure `...Spec` function of the tables before the call, which gives the
  result and the tables after (`Models.Outcome`).

The method's postcondition ties the two together and says the session still
holds a committed state. Lemmas then say when each operation succeeds, in terms
of the request and the tables, not the commit.

The centrepiece is `MovementCrud.CreateMovement`, the transfer of units of a
wine from one branch to another. Proved about it:

- the checks happen in the source's order;
- the destination row is found or created;
- the origin is debited and the destination credited;
- an audit record is appended;
- the transfer conserves every product's total quantity;
- the commit fails exactly when the destination would end up negative.

Also modelled:

- the CRUD handlers for stock, branches, wines, users, customers and OAuth
  clients;
- the wine listing with filters, four sort orders and cursor paging;
- issuing and resolving access tokens and the administrator check;
- the two start-up seeds.

Values the environment supplies are parameters: fresh ids from the database
sequences, the hashing salt, the current instant and the signing key.

## Model

| member | source | states |
|---|---|---|
| Db.Session.constructor | db/base.py:26 | a session opens on a committed state and shows exactly those tables |
| Db.Session.Restore | cruds/movement.py:63 | rollback puts every table back to the saved state |
| Db.Session.Commit | cruds/movement.py:60-64 | the pending changes are kept exactly when they satisfy every table constraint, otherwise the tables return to the state before the request; either way the session holds a committed state |
| Models.FindStock | cruds/movement.py:31-34 | the lookup returns a key whose row is of the product and branch, or None only when no row is |
| Models.FindStockUnique | models/stock.py:19 | with the pair constraint, the lookup finds the one row of the pair |
| Models.InsertRowOk | models/stock.py:18-21 | inserting a row under a fresh key keeps the ledger valid exactly when the row names an existing product and branch, has a new pair and a non-negative quantity |
| Models.WriteQuantityOk | models/stock.py:20 | rewriting one row's quantity keeps the ledger valid exactly when the new quantity is non-negative |
| Ledger.TotalWithout | models/stock.py:11 | a product's total across branches is a row's contribution plus the total of the other rows |
| Ledger.TotalAfterWrite | cruds/movement.py:53-54 | writing one row changes a product's total by exactly the change of that row's contribution |
| Credentials.ParseRole | utils/auth.py:20-22 | only "user" and "admin" name a role, and the role maps back to its string |
| Credentials.RoleValueParses | utils/auth.py:20-22 | every role's stored string parses back to the role |
| Credentials.HashPassword | utils/auth.py:24-30 | a hash keeps its salt and the password verifies against its own hash |
| Text.ParseInt | utils/auth.py:47 | `int()` on a text succeeds only on decimal digits with an optional sign, and reads a plain digit string as its value |
| Text.DecimalRoundTrip | utils/auth.py:47 | `int(str(n)) == n` for every integer, negative ones included |
| StockCrud.CreateStockSpec | cruds/stock.py:9-28 | unknown product gives 404, else unknown branch gives 404, else an existing pair gives 400, each changing nothing; otherwise the new row is inserted |
| StockCrud.CreateStockSucceeds | cruds/stock.py:9-28 | creation succeeds iff product and branch exist, the pair has no row and the quantity is not negative |
| StockCrud.CreateStock | cruds/stock.py:9-28 | the session method returns and stores what the spec says, and keeps the session committed |
| StockCrud.GetStock | cruds/stock.py:31-36 | every returned row is stored and of the branch when a truthy branch id is given; every such stored row is returned; the count is the number of stored rows at that branch (all rows when unfiltered); when ids are keys, no row is listed twice |
| StockCrud.UpdateStockSpec | cruds/stock.py:39-48 | unknown id answers None unchanged; otherwise the sent quantity replaces the stored one, the rest of the row kept |
| StockCrud.UpdateStockSucceeds | cruds/stock.py:39-48 | an update fails iff it would make its row negative |
| StockCrud.UpdateStockAdjustsTotal | cruds/stock.py:39-48 | a direct update changes the product's total by exactly the change of the row, and other products' totals not at all |
| StockCrud.UpdateStock | cruds/stock.py:39-48 | the session method follows the spec and keeps the session committed |
| StockCrud.DeleteStockSpec | cruds/stock.py:51-58 | unknown id answers False unchanged; otherwise the row is removed |
| StockCrud.DeleteStockRemovesRow | cruds/stock.py:51-58 | a delete never fails, answers whether the row existed and removes exactly that row |
| StockCrud.DeleteStock | cruds/stock.py:51-58 | the session method follows the spec and keeps the session committed |
| BranchCrud.GetBranches | cruds/branch.py:8-10 | every branch once, ordered by ascending id |
| BranchCrud.RowsById | cruds/branch.py:8-10 | each listed branch is the one stored under its id and the ids strictly ascend |
| BranchCrud.GetBranch | cruds/branch.py:12-14 | the branch stored under the id, None exactly when there is none |
| BranchCrud.CreateBranchSpec | cruds/branch.py:16-25 | a taken name gives 400 and changes nothing; otherwise the branch is inserted under the new id |
| BranchCrud.CreateBranchSucceeds | cruds/branch.py:16-25 | creation succeeds iff the name is free |
| BranchCrud.CreateBranch | cruds/branch.py:16-25 | the session method follows the spec and keeps the session committed |
| BranchCrud.UpdateBranchSpec | cruds/branch.py:27-41 | unknown id answers None; a non-empty name held by another branch gives 400 changing nothing; otherwise the sent name is written |
| BranchCrud.UpdateBranchSucceeds | cruds/branch.py:27-41 | an update fails only on another branch's name and never changes the id |
| BranchCrud.UpdateBranch | cruds/branch.py:27-41 | the session method follows the spec and keeps the session committed |
| BranchCrud.DeleteBranchSpec | cruds/branch.py:43-54 | unknown id answers False; a branch named by a stock row or a movement gives 400 changing nothing; otherwise it is removed |
| BranchCrud.DeleteBranchSucceeds | cruds/branch.py:43-54 | an unreferenced branch is always removed, and nothing else |
| BranchCrud.DeleteBranch | cruds/branch.py:43-54 | the session method follows the spec and keeps the session committed |
| ProductCrud.ParseSort | cruds/product.py:32-41 | exactly the four sort names are accepted, each mapping back to its name |
| ProductCrud.PrecedesTotal | cruds/product.py:32-39 | any two wines are comparable under each sort order |
| ProductCrud.PrecedesTransitive | cruds/product.py:32-39 | each sort order is transitive |
| ProductCrud.ListingIsTotalPreorder | cruds/product.py:32-39 | each sort order is a total preorder, so `ORDER BY` is well defined |
| ProductCrud.SortProducts | cruds/product.py:32-39 | the result is sorted by the order and is a permutation of its input |
| ProductCrud.SelectionDistinct | cruds/product.py:18-26 | with ids as keys, the filtered rows hold no wine twice |
| Text.ILikeAnywhereIsSubstring | cruds/product.py:22-24 | `ILIKE '%x%'` with an unescaped `x` free of `%`, `_` and `\` holds exactly when `x` occurs in the text, ignoring case |
| Text.UnderscoreMatchesAnyText | cruds/product.py:22-24 | an unescaped `_` filter matches every non-empty text, since `_` is a LIKE wildcard |
| ProductCrud.CountMatching | cruds/product.py:20-29 | `total` is the number of stored wines passing the filters (`ILIKE` patterns on name and region, equality on vintage), before the cursor and the limit |
| ProductCrud.Candidates | cruds/product.py:20-45 | exactly the stored wines passing the filters and the id cursor, in listing order, each at most once on a valid catalogue |
| ProductCrud.GetWines | cruds/product.py:8-53 | an unknown sort gives 400, a negative limit 500; otherwise the items are the first `limit` candidates, no wine twice on a valid catalogue, in listing order, every left-out candidate ordered after them; `total` is the filtered count; the next cursor is the last item's id exactly when the page is full |
| ProductCrud.GetWine | cruds/product.py:56-58 | the wine stored under the id, None exactly when there is none |
| ProductCrud.CreateWineSpec | cruds/product.py:61-70 | a taken name gives 400 changing nothing; otherwise the wine is inserted |
| ProductCrud.CreateWineSucceeds | cruds/product.py:61-70 | creation succeeds iff the name is free and every text fits its column |
| ProductCrud.CreateWine | cruds/product.py:61-70 | the session method follows the spec and keeps the session committed |
| ProductCrud.UpdateWineSpec | cruds/product.py:73-87 | unknown id answers None; a sent non-empty name held by another wine gives 400 changing nothing; otherwise the sent columns are written |
| ProductCrud.UpdateWineSucceeds | cruds/product.py:73-87 | past the name check, the update succeeds iff the texts fit and the name stays unique; the id never changes |
| ProductCrud.UpdateWine | cruds/product.py:73-87 | the session method follows the spec and keeps the session committed |
| ProductCrud.DeleteWineSpec | cruds/product.py:90-100 | unknown id answers False; a wine with a stock row gives 400 changing nothing; otherwise it is removed |
| ProductCrud.DeleteWineSucceeds | cruds/product.py:90-100 | a wine no stock row names is always removed, and nothing else |
| ProductCrud.DeleteWine | cruds/product.py:90-100 | the session method follows the spec and keeps the session committed |
| MovementCrud.WithDestination | cruds/movement.py:38-50 | the returned key holds a row of the product at the destination branch in the returned table |
| MovementCrud.CreateMovementSpec | cruds/movement.py:12-67 | each 404 and the 400 "insufficient stock" answer exactly when its check is the first to fail, changing nothing; a successful call returns the record of the request, appends it to the log, changes no table but stock and movements, and commits a valid state |
| MovementCrud.Pending | cruds/movement.py:38-58 | the state before the commit appends exactly the request's record to the movement log and touches no table but stock and movements |
| MovementCrud.CreateMovementConservesTotals | cruds/movement.py:53-54 | no call changes any product's total quantity across branches |
| MovementCrud.WithDestinationKeepsRows | cruds/movement.py:38-50 | finding or creating the destination row keeps every existing row and adds at most the new key |
| MovementCrud.WithDestinationKeepsTotal | cruds/movement.py:43-50 | creating the missing destination row (quantity 0) keeps every product's total |
| MovementCrud.TransferKeepsTotal | cruds/movement.py:53-54 | debiting one row and crediting another of the same product keeps every total |
| MovementCrud.CreateMovementMovesQuantity | cruds/movement.py:38-54 | between two branches, the origin row loses the quantity, the destination row gains it, and every other row is unchanged |
| MovementCrud.SameBranchMovementKeepsStock | cruds/movement.py:53-54 | a movement from a branch to itself leaves the ledger as it was and still records the movement |
| MovementCrud.CreateMovementCommitFails | cruds/movement.py:60-64 | once the checks pass, the call fails with 500 exactly when the branches differ and the destination would end up negative |
| MovementCrud.StagedOk | cruds/movement.py:43-50 | creating the missing destination row keeps the ledger valid |
| MovementCrud.TransferOk | cruds/movement.py:53-61 | after the origin check, the two writes keep the ledger valid exactly when the destination ends non-negative |
| MovementCrud.FirstTransfer | cruds/movement.py:12-67 | moving 4 of 10 units from branch A to B creates B's row, leaves 6 and 4, and logs one movement |
| MovementCrud.OverdrawRefused | cruds/movement.py:30-36 | asking for more than the origin holds is refused with 400 and changes nothing |
| MovementCrud.TransferScenario | cruds/movement.py:12-67 | a transfer followed by an overdraw: the first commits, the second is refused and keeps the first's state |
| MovementCrud.CreateMovement | cruds/movement.py:12-67 | the session method follows the spec step by step and keeps the session committed |
| MovementCrud.LaterFirstIsTotalPreorder | cruds/movement.py:70-72 | newest-first is a total preorder |
| MovementCrud.ListMovements | cruds/movement.py:70-72 | every movement, as many times as stored, with timestamps descending |
| UserCrud.CreateUserSpec | cruds/user.py:7-18 | an invalid role fails; a failure is a 500 changing nothing; a success stores the user with the hash of the password |
| UserCrud.CreateUserSucceeds | cruds/user.py:7-18 | creation succeeds iff the role is valid, the texts fit and neither the username nor a given email is taken |
| UserCrud.CreateUser | cruds/user.py:7-18 | the session method follows the spec and keeps the session committed |
| UserCrud.GetUser | cruds/user.py:20-21 | the user stored under the id, None exactly when there is none |
| UserCrud.GetUserByUsername | cruds/user.py:23-24 | a stored user with that username, None exactly when no user has it |
| UserCrud.UsernameLookupFindsOwner | cruds/user.py:23-24 | usernames are unique, so the lookup returns the one owner |
| UserCrud.GetUserByEmail | cruds/user.py:26-27 | a stored user with that email, None exactly when no user has it |
| UserCrud.EmailLookupFindsOwner | cruds/user.py:26-27 | emails are unique, so the lookup returns the one owner |
| UserCrud.ListUsers | cruds/user.py:29-30 | every user, each once |
| UserCrud.UpdateUserSpec | cruds/user.py:32-46 | unknown id answers None; otherwise only the truthy fields are written, the password hashed |
| UserCrud.UpdateUserSucceeds | cruds/user.py:32-46 | an update of a stored user succeeds iff a sent role is valid, the texts fit and a new email is no other user's |
| UserCrud.UpdateUser | cruds/user.py:32-46 | the session method follows the spec and keeps the session committed |
| UserCrud.DeleteUserSpec | cruds/user.py:48-54 | unknown id answers False; otherwise the user is removed |
| UserCrud.DeleteUserRemovesUser | cruds/user.py:48-54 | a delete never fails and removes exactly that user |
| UserCrud.DeleteUser | cruds/user.py:48-54 | the session method follows the spec and keeps the session committed |
| ClientCrud.WriteClientOk | cruds/client.py:5-23 | writing a customer keeps the table valid iff it fits its columns and its email is no other customer's |
| ClientCrud.CreateClientSpec | cruds/client.py:5-10 | a failure is a 500 changing nothing; a success stores the customer as sent |
| ClientCrud.CreateClientSucceeds | cruds/client.py:5-10 | creation succeeds iff the customer fits its columns and the email is free |
| ClientCrud.CreateClient | cruds/client.py:5-10 | the session method follows the spec and keeps the session committed |
| ClientCrud.GetClients | cruds/client.py:12-13 | every customer, each once |
| ClientCrud.UpdateClientSpec | cruds/client.py:15-23 | unknown id answers None; otherwise the sent columns are written |
| ClientCrud.UpdateClientSucceeds | cruds/client.py:15-23 | an update succeeds iff the result fits and its email is no other customer's; the id never changes |
| ClientCrud.UpdateClient | cruds/client.py:15-23 | the session method follows the spec and keeps the session committed |
| ClientCrud.DeleteClientSpec | cruds/client.py:25-31 | an unknown id answers an error object and changes nothing; otherwise the customer is removed |
| ClientCrud.DeleteClientAnswersTruthy | cruds/client.py:25-31 | both answers are non-empty objects, so a caller testing the answer's truth never sees a miss |
| ClientCrud.DeleteClient | cruds/client.py:25-31 | the session method follows the spec and keeps the session committed |
| OAuthClientCrud.GetOAuthClientByClientId | cruds/oauth_client.py:6-8 | a stored record with that client id, None exactly when there is none |
| OAuthClientCrud.ValidateOAuthClient | cruds/oauth_client.py:10-15 | success only with a stored record whose hash the secret verifies; unknown id and wrong secret give the same 401 |
| OAuthClientCrud.ValidateOAuthClientExactly | cruds/oauth_client.py:10-15 | client ids are unique, so validation succeeds exactly when the secret verifies against that record's hash |
| OAuthClientCrud.CreateOAuthClientSpec | cruds/oauth_client.py:17-24 | the stored record holds the hash of the secret, which verifies, never the secret |
| OAuthClientCrud.CreateOAuthClientSucceeds | cruds/oauth_client.py:17-24 | registration succeeds iff the client id is free |
| OAuthClientCrud.CreateOAuthClient | cruds/oauth_client.py:17-24 | the session method follows the spec and keeps the session committed |
| OAuthClientCrud.CreatedClientValidates | cruds/oauth_client.py:10-24 | a client registered with a secret is then accepted with that secret |
| Auth.CreateAccessToken | utils/auth.py:32-38 | the token carries every claim of the data plus an expiry `now + delta`, signed with the key |
| Auth.Decode | utils/auth.py:43 | a token is accepted iff signed with the key, its "iat", "nbf" and "exp" read as integers with "nbf" not after and "exp" not before now, it has no "aud" or "at_hash", and its "sub" and "jti" are text when present; a null time claim raises instead of refusing |
| Auth.UserFromPayload | utils/auth.py:44-50 | a missing or null subject is an invalid token; a text subject `int()` cannot read is a 500; otherwise the answer is the user stored under id `int(sub)`, or "User not found" when there is none |
| Auth.GetCurrentUser | utils/auth.py:40-52 | a refused token is an invalid token, one on which the decoder raises a non-JWT error is a 500; a success means the right key and a stored user; for a decoded token whose subject reads as an id, the answer is the user stored under that id, or "User not found" |
| Auth.GetCurrentAdmin | utils/auth.py:54-58 | passes the user through iff their role is admin, else 403 |
| Auth.IssuedTokenResolves | utils/auth.py:32-52 | a token issued for a stored user, from claims the decoder does not check besides "sub", resolves to that user until its expiry, and is admin iff the user is |
| Auth.StaleOrForeignTokenRefused | utils/auth.py:40-52 | an expired token or one under another key is never accepted: it is an invalid token, or a 500 only when the right key meets a null "iat" or "nbf" |
| Auth.UnknownSubjectRefused | utils/auth.py:47-49 | a subject naming no stored user gives "User not found" |
| Seeds.SeedAdminSpec | seeds/users.py:8-25 | skipped exactly when a user is called "admin"; otherwise the default administrator is inserted |
| Seeds.SeedAdminSucceeds | seeds/users.py:8-25 | the seed fails only when its email belongs to another user; the inserted admin is an admin and logs in with the default password |
| Seeds.SeedAdminIdempotent | seeds/users.py:8-25 | running the seed again skips and changes nothing |
| Seeds.SeedAdminUser | seeds/users.py:8-25 | the session method follows the spec and keeps the session committed |
| Seeds.SeedOAuthClientSpec | seeds/oauth_clients.py:8-12 | skipped exactly when client id "app123" exists; otherwise the default client is registered |
| Seeds.SeedOAuthClientSucceeds | seeds/oauth_clients.py:8-12 | on a committed state the seed never fails, and the default credentials then validate |
| Seeds.SeedOAuthClientIdempotent | seeds/oauth_clients.py:8-12 | running the seed again skips and changes nothing |
| Seeds.SeedOAuthClient | seeds/oauth_clients.py:8-12 | the session method follows the spec and keeps the session committed |
| CursorPaging.FirstPageOfTwo | cruds/product.py:43-51 | with wines "b" (id 1) and "a" (id 2), name order, limit 1: page one is ["a"] with next cursor 2 |
| CursorPaging.SecondPageOfTwo | cruds/product.py:43-51 | the page after cursor 2 is empty and has no next cursor |
| CursorPaging.CursorPagingSkipsWine | cruds/product.py:43-51 | on that valid catalogue the listing as written never shows the matching wine "b" |
| KeysetPaging.RankingIsTotalPreorder | cruds/product.py:32-39 | the sort order with the id as tie-breaker is a total preorder |
| KeysetPaging.RanksAntisymmetric | cruds/product.py:32-39 | with unique names, two stored wines ranked both ways are the same wine |
| KeysetPaging.SortRanked | cruds/product.py:32-39 | sorted by the sort key and then the id, and a permutation of its input |
| KeysetPaging.KeysetCandidates | cruds/product.py:20-45 | exactly the stored wines passing the filters and past the cursor wine, in ranking order, each at most once on a valid catalogue |
| KeysetPaging.FirstRows | cruds/product.py:48 | the first `n` keyset candidates, in ranking order, no wine twice on a valid catalogue |
| KeysetPaging.GetWinesKeyset | cruds/product.py:8-53 | the listing with a keyset cursor: the same error cases as the original; the items are the first `limit` keyset candidates in ranking order, no wine twice on a valid catalogue; `total` is the filtered count; the next cursor is the last item exactly when the page is full |
| KeysetPaging.KeysetPagingContinues | cruds/product.py:43-51 | pages lose nothing and repeat nothing: after a full page, the next page starts from exactly the candidates the page did not hold |

## Left out

- HTTP routing, request schemas, dependency injection, `get_db`, logging and the health route are not modelled. Most routes only pass values to the handlers modelled here. Two do not, as written:
  - routes/client.py:5 imports `ClientUpdate`, which schemas/client.py does not define. app/main.py imports that route, so as written the service does not start.
  - routes/movement.py:21 assigns `user_id` to a `MovementCreate`, a pydantic model that has no such field.
- ClientCrud.UpdateClientSpec: the handler's type hint is `ClientCreate` (cruds/client.py:15), in which name, email and phone are all required (schemas/client.py:3-6), and the `ClientUpdate` the route names does not exist. The model's partial `ClientUpdate` payload, where each field may be unset, is the route's evident intent; with `exclude_unset` on a full `ClientCreate` every column would be written.
- Timestamps (`created_at`, `updated_at`) are not modelled. They are set by column defaults. The stock defaults call `timezone.UTC`, which the `datetime` module does not have (models/stock.py:12-13). The `onupdate` of `updated_at` fires on every UPDATE of a stock row as well as on INSERT. So as written:
  - `create_stock` raises `AttributeError` when it inserts, a plain 500;
  - `update_stock` raises `AttributeError` in its commit whenever the quantity changes, a plain 500;
  - `create_movement` raises `AttributeError` at the flush of a new destination row (cruds/movement.py:50), or in the commit when it writes a changed quantity. The error is not an `IntegrityError`, so it escapes the `except` at cruds/movement.py:62 as a plain 500 rather than "Error registering movement".
- StockCrud.CreateStockSpec, StockCrud.UpdateStockSpec and MovementCrud.CreateMovementSpec model the evident intent, a stock table whose timestamps are set without error. They do not model the `AttributeError` above.
- BranchCrud.DeleteBranchSpec: as written, the guard at cruds/branch.py:49-50 reads `Movement.origin_branch_id`, which the movement table does not have (models/movement.py:5-14). For an existing branch with no stock row the `or` reaches that clause, which raises `AttributeError`, a plain 500. So as written `delete_branch` answers False for an unknown id, 400 for a branch with stock, and 500 otherwise: it never deletes a branch. The model states the evident intent, the id-based movement table of MovementCrud, where an unreferenced branch is removed.
- BranchCrud.DeleteBranchSucceeds: proves that an unreferenced branch is removed. That is the id-based intent above; as written this case is a 500.
- BranchCrud.DeleteBranch: follows DeleteBranchSpec, so it models the intended deletion and not the as-written 500.
- MovementCrud.CreateMovementSpec: as written, the request schema carries `product_name`, `origin_branch` and `destination_branch` strings and no `user_id` (schemas/movement.py:5-10), and the movement table has no id columns (models/movement.py:9-12). So:
  - the handler's reads of `movement.user_id`, `product_id`, `origin_branch_id` and `destination_branch_id` (cruds/movement.py:15-26) fail on every request, a plain 500;
  - a payload that did carry ids would fail instead at `Movement(**movement.model_dump())` (cruds/movement.py:57), since the table has no such columns.

  MovementCrud.CreateMovementSpec and MovementCrud.CreateMovement model the evident intent: an id-based request whose movement record keeps the ids.
- `create_movement` checks neither that the quantity is positive nor that the two branches differ. The model follows the code: a negative quantity can pass and the same-branch case is proved to leave the ledger unchanged.
- `MovementCrud.CreateMovement`: `db.flush()` at cruds/movement.py:50 runs outside the `try`. A flush failure cannot happen here, because the new destination row references an existing product and branch with quantity 0.
- Movement timestamps are a caller-supplied instant (`now`), not the clock.
- Auth.Decode: the decoder's checks are modelled for integer and text claims with no leeway. These are not modelled: floating-point time claims, list-valued "aud", the "iss" and "sub" comparisons (the service passes no issuer or subject to compare), and `int()` on text with whitespace or `_`.
- Password hashing and JWT signing are abstracted. The hash is a salted digest with the salt as a parameter. A token carries its claims and the key it was signed with. No cryptographic property is claimed.
- `ILIKE` is modelled with ASCII lower-casing only, and string order is code-point order. Database collations are not modelled. The `ILIKE` pattern itself is modelled (`Text.Like`): the filter text is not escaped (cruds/product.py:22-24), so its `%`, `_` and `\` act as pattern characters in ProductCrud.Matches and every listing built on it.
- The order of `get_stock`, `list_users` and `get_clients` is not fixed by the SQL. The model returns rows in ascending key order. The contracts state membership, that no row is listed twice, and the count. `get_stock` states its count both filtered and unfiltered.
- Ties in the wine and movement sort orders are left unspecified by the SQL. The model sorts with a stable insertion sort. The contracts state sortedness and a permutation of the rows, and not which of two tied rows comes first.
- Text.ParseInt: Python's `int()` also accepts surrounding whitespace and `_` separators. These are not modelled, because tokens issued by the service carry plain decimal subjects.
- The login route (routes/login.py) is not part of this model. It calls `verify_password` with the arguments swapped and `create_access_token` without an expiry.
- `app/main.py` runs only the admin seed at start-up. Both seeds are modelled on their own.
- Connection failures, concurrency between requests and isolation levels are not modelled. Each request runs alone on a committed state.
- Fixed-width integer overflow of ids and quantities is not modelled. Integers are unbounded.
- ProductCrud.CreateWineSpec: as written, `Product(**wine.model_dump())` (cruds/product.py:66) always passes `description`, which the wine table has no column for (models/product.py:6-14). So every `create_wine` that passes the name check raises `TypeError`, a plain 500. The model states the evident intent: the wine is inserted.
- ProductCrud.UpdateWineSpec: the request schema (schemas/product.py:3-11) carries only a required `name` and an optional `description`. So the vintage, region and grape payloads and an unset name in ProductCreate and ProductUpdate are inputs no request can send. The model takes the columns a wine has, the evident intent, and leaves `description` out. The handler sets it as a plain attribute that is never stored.

## Findings

| source | as written | input that shows it | evidently intended | confidence | as-written member | corrected member |
|---|---|---|---|---|---|---|
| cruds/product.py:43-51 | the cursor filters `id > cursor` while the page is ordered by name or vintage, and the next cursor is the last item's id | wines {1: "b", 2: "a"}, sort `name_asc`, limit 1: page one is ["a"] with next cursor 2; page two (`id > 2`) is empty, so "b" is never listed | following the next cursor continues in listing order, so every matching wine is listed exactly once | not executed | CursorPaging.CursorPagingSkipsWine | KeysetPaging.KeysetPagingContinues |
