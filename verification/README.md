# Simple Bank: account handlers, account store and CreateUser, in Dafny

This project models the account-facing core of the Simple Bank backend:

- the currency validator (`utils/currency.go`): `USD`, `EUR` and `CAD`, matched exactly;
- the decisions of the three account HTTP handlers (`api/account.go`): which requests binding rejects, what
  arguments go to the store, how store outcomes become status codes, the ownership check of `getAccount`,
  and the page offset `(page_id - 1) * page_size` computed in Go's `int32` arithmetic;
- the account store as its tests use it (`db/sqlc/account_test.go`): an immutable map from `int64` ID to
  account plus the next value of the ID sequence, with `CreateAccount`, `GetAccount`, `UpdateAccount`,
  `DeleteAccount` and `ListAccounts`;
- the decisions of the `CreateUser` RPC (`gapi/rpc_create_user.go`): hashing failure, store arguments and the
  gRPC error mapping, which differs from the HTTP one.

Files and modules:

| file | module | contents |
|---|---|---|
| `outcomes.dfy` | `Outcomes` | `Option` and `Result` |
| `ints.dfy` | `Ints` | `int32`, `int64` and two's-complement wrap-around |
| `currency.dfy` | `Currency` | the supported currencies and `IsCurrencySupported` |
| `db.dfy` | `Db` | accounts, the store, its five queries |
| `db_properties.dfy` | `DbProperties` | what the store tests assert, as lemmas |
| `api.dfy` | `Api` | the three account handlers as decision functions |
| `api_properties.dfy` | `ApiProperties` | pagination arithmetic, and the handlers run against the `Db` store |
| `gapi.dfy` | `Gapi` | the `CreateUser` RPC and how its error mapping compares with the HTTP one |

Each handler is a pure function of the request parameters as decoded from the wire (`Param<T>`: a value or
unparsable), the authenticated username, and the store given as a total function from the query's arguments
to its outcome. It returns a `Handled(query, reply)`. `query == None` means the store was never called. The
store's failures are `NoRows`, `Pq(code)` (a PostgreSQL error known by its code name, as `pq.Error.Code.Name()`
gives it) or `Other`.

The page offset is computed with explicit `int32` wrap-around. `page_id` has no upper bound at binding time,
so large page numbers pass binding and their offset wraps. With `page_id = 536870913` and `page_size = 8` the
offset wraps to 0, and the reply is page 1's reply. With `page_id = 2147483647` and `page_size = 10` it wraps to
`-20`, PostgreSQL refuses the negative OFFSET, and the reply is 500. Both are recorded under "## Findings".
`Api.ListAccounts` models the handler as written. `Api.ListAccountsBounded` is the corrected variant, which also
bounds `page_id`.

## Model

| member | source | states |
|---|---|---|
| Ints.Wrap32 | api/account.go:149 | the int32 result equals the mathematical one when it fits, and always agrees with it modulo 2^32 |
| Ints.Sub32 | api/account.go:149 | Go's int32 subtraction: the true difference whenever it fits, and always congruent to it modulo 2^32 |
| Ints.Mul32 | api/account.go:149 | Go's int32 multiplication: the true product whenever it fits, and always congruent to it modulo 2^32 |
| Currency.IsCurrencySupported | utils/currency.go:9-15 | true exactly for the members of the set {USD, EUR, CAD}; every accepted code is three upper-case letters |
| Currency.SupportedCodes | utils/currency.go:3-7 | the supported set has exactly three distinct members, each a three-letter upper-case code |
| Currency.ExactMatchOnly | utils/currency.go:9-14 | anything not of three upper-case letters is refused, in particular "", "usd", "eur", "cad", "Usd" and "USD " |
| Db.CreateAccount | db/sqlc/account_test.go:13-34 | the new account has the requested owner, balance and currency, the given creation time, and the next ID from the sequence, which then advances by one; that ID is fresh and non-zero; no other row changes; fails only when the ID sequence is exhausted |
| Db.GetAccount | db/sqlc/account_test.go:40-52 | returns the stored row with the requested ID, or NoRows exactly when the ID is absent |
| Db.UpdateAccount | db/sqlc/account_test.go:54-72 | sets the balance to exactly the requested value; ID, owner, currency and creation time stay; no other row changes; NoRows for a missing ID |
| Db.DeleteAccount | db/sqlc/account_test.go:74-86 | the ID is gone afterwards, every other row is untouched and the ID sequence does not move back |
| Db.OwnedFrom | db/sqlc/account_test.go:96-110 | lists only stored accounts of the given owner, in strictly ascending ID order |
| Db.Page | db/sqlc/account_test.go:96-102 | the LIMIT/OFFSET window: at most `limit` rows starting at `offset`, empty past the end |
| Db.ListAccounts | db/sqlc/account_test.go:96-110 | fails exactly on a negative offset or limit, reporting the offset first; otherwise exactly the window [offset, offset + limit) of the owner's accounts ordered by ID: at most `limit` stored accounts, all of the requested owner |
| DbProperties.OwnedFromComplete | db/sqlc/account_test.go:88-105 | every stored account of the owner with ID at least the lower bound is listed |
| DbProperties.OwnedExactly | db/sqlc/account_test.go:96-110 | an account is among its owner's listing if and only if it is stored with that owner |
| DbProperties.CreateThenGet | db/sqlc/account_test.go:40-52 | a created account reads back with the same ID, owner, balance, currency and creation time |
| DbProperties.CreateThenUpdate | db/sqlc/account_test.go:54-72 | updating a created account yields it with only the balance replaced, and reading it back agrees |
| DbProperties.DeleteThenGet | db/sqlc/account_test.go:74-86 | after a delete, reading the same ID reports no rows |
| DbProperties.DeletedIdNotReused | db/sqlc/account_test.go:77-84 | a create after a delete never hands out the deleted ID again |
| DbProperties.ListFirstPageNonEmpty | db/sqlc/account_test.go:96-105 | the first page with a positive limit is non-empty whenever the owner has an account |
| DbProperties.CreateThenList | db/sqlc/account_test.go:88-110 | after creating an account for an owner, the first page of 5 is non-empty and holds only that owner's accounts |
| DbProperties.ConsecutivePages | db/sqlc/account_test.go:96-102 | two consecutive pages of `limit` rows together are the page of `2 * limit` rows: pages neither overlap nor skip rows |
| Api.CurrencyBinds | api/account.go:14-16 | `required,currency` admits exactly a parsed currency in {USD, EUR, CAD} |
| Api.IdBinds | api/account.go:67-69 | `required,min=1` admits exactly a parsed positive ID |
| Api.PageBinds | api/account.go:116-119 | `required,min=1` and `required,min=5,max=10` admit exactly page_id > 0 and 5 <= page_size <= 10, with no upper bound on page_id |
| Api.PageOffset | api/account.go:149 | the offset is (page_id - 1) * page_size whenever that fits in int32, and always congruent to it modulo 2^32 |
| Api.CreateFailureStatus | api/account.go:51-61 | 403 exactly for a foreign-key or uniqueness violation, 500 for every other error |
| Api.CreateAccount | api/account.go:33-65 | a currency that fails binding gives 400 with no store call; otherwise the store gets owner = caller, balance 0, the requested currency; its errors map to 403/500, success to 200 with the account |
| Api.GetAccount | api/account.go:86-114 | an ID below 1 gives 400 with no store call; 200 with the account exactly when the lookup succeeds and the caller owns it; a fetched account owned by someone else gives 400 with no body; 404 exactly on no rows; 500 exactly on other errors |
| Api.ListAccounts | api/account.go:135-159 | page_id < 1 or page_size outside 5..10 gives 400 with no store call; otherwise the store gets owner = caller, limit = page_size and the int32 offset; errors give 500 |
| Api.PageBindsBounded | api/account.go:116-119 | admits exactly what the page binding admits with page_id at most 214748365; every admitted request has an offset in [0, MaxInt32] |
| ApiProperties.BoundedBindingAdmits | api/account.go:116-119 | the bounded binding admits page 1 of size 5 and page 214748365 of size 10, and refuses pages 214748366 and 536870913 |
| Api.ListAccountsBounded | api/account.go:135-159 | the corrected handler: 400 unless the bounded binding passes; otherwise the same query and reply as the handler, with the offset exactly (page_id - 1) * page_size and non-negative |
| ApiProperties.OffsetExact | api/account.go:146-150 | while it fits in int32 the offset is exactly (page_id - 1) * page_size, non-negative and a multiple of page_size |
| ApiProperties.OffsetExactIffFits | api/account.go:116-150 | for a request that passed binding, the offset is the true product if and only if the product fits in int32 |
| ApiProperties.ConsecutiveOffsets | api/account.go:149 | while both offsets fit in int32, page p + 1 starts exactly page_size rows after page p |
| ApiProperties.PagesDisjoint | api/account.go:149 | while both offsets fit in int32, distinct pages of one size cover disjoint offset ranges |
| ApiProperties.OffsetOverflow | api/account.go:116-150 | page_id = 2147483647, page_size = 10 passes binding and wraps the offset to -20 |
| ApiProperties.OffsetWrapsToFirstPage | api/account.go:116-152 | page_id = 536870913, page_size = 8 passes binding, wraps the offset to 0 and gets page 1's reply from any store |
| ApiProperties.BoundedPagesDisjoint | api/account.go:146-150 | in the corrected handler, any two distinct pages that pass binding cover disjoint offset ranges |
| ApiProperties.BoundedListOnStore | api/account.go:146-158 | in the corrected handler, every request that passes binding gets 200 from the store model, with the window starting at (page_id - 1) * page_size |
| ApiProperties.CreateAccountOnStore | api/account.go:36-64 | against the store model, 200 exactly when the currency binds and an ID is left; the new account is the caller's, has balance 0, a supported currency and a fresh ID; an exhausted sequence is 500 |
| ApiProperties.GetAccountOnStore | api/account.go:89-113 | against the store model, the account is returned exactly when it exists and the caller owns it; a missing ID is 404 whoever asks; another user's account is 400 with no body |
| ApiProperties.CreateThenGetViaApi | api/account.go:44-113 | an account created through the API is read back by its creator with 200 and refused to anyone else with 400 |
| ApiProperties.ListAccountsOnStore | api/account.go:138-158 | against the store model, a listing returns at most page_size accounts, all the caller's; while the offset fits it is the ID-ordered window of the caller's accounts |
| ApiProperties.ListOverflowIsServerError | api/account.go:146-155 | the overflowing request reaches the store, which refuses the negative offset, and is answered 500 |
| Gapi.CreateUserFailureCode | gapi/rpc_create_user.go:28-36 | AlreadyExists exactly for a uniqueness violation, Internal for every other error |
| Gapi.CreateUser | gapi/rpc_create_user.go:14-44 | a hashing failure gives Internal with no store call; otherwise the store gets username, full name and email unchanged and the digest as password; AlreadyExists exactly on a uniqueness violation; a response exactly on success, carrying the converted user |
| Gapi.PlaintextNeverStored | gapi/rpc_create_user.go:15-25 | a corollary of CreateUser: when the hash never returns its input, the store never receives the plaintext password |
| Gapi.HashFailureIgnoresStore | gapi/rpc_create_user.go:15-18 | after a hashing failure the outcome does not depend on the store at all |
| Gapi.ErrorMappingsDiffer | gapi/rpc_create_user.go:29-36 | a uniqueness violation is a conflict over both HTTP and RPC, every HTTP 500 is an RPC Internal, and a foreign-key violation is 403 over HTTP but Internal over RPC |

## Findings

| source | as written | input that shows it | evidently intended | confidence | as-written member | corrected member |
|---|---|---|---|---|---|---|
| api/account.go:117-149 | page_id has no upper bound and the offset (page_id - 1) * page_size is computed in int32 | page_id = 536870913, page_size = 8: the offset wraps to 0 and the reply repeats page 1 | distinct pages return disjoint rows, e.g. by bounding page_id so the offset always fits | not executed | ApiProperties.OffsetWrapsToFirstPage | ApiProperties.BoundedPagesDisjoint |
| api/account.go:117-155 | the same wrap can make the offset negative, which PostgreSQL refuses | page_id = 2147483647, page_size = 10: the offset is -20 and the reply is 500 for a request that passed binding | every request that passes binding is answered from the store with its page | not executed | ApiProperties.ListOverflowIsServerError | ApiProperties.BoundedListOnStore |

The store compositions (`ApiProperties.ListAccountsOnStore` and the lemmas before it) keep the as-written
handler, since it is what the program does. Their claims are limited to offsets that fit.

## Left out

- The money-transfer engine, its transactions and its lock ordering: no transfer code is part of this model.
- gin's request binding, JSON decoding and rendering, and error message texts. A parameter arrives as decoded or unparsable. An absent parameter counts as unparsable, because `required` rejects the zero value it would bind to.
- api/validator.go is not part of this model. The `currency` binding tag is taken to accept exactly what `IsCurrencySupported` accepts.
- The authentication middleware and token payload: the authenticated username is a plain input.
- gRPC status machinery and the `pq.Error` type assertion: an error is `Pq(code name)`, `NoRows` or `Other`.
- `utils.HashPassword` (bcrypt) and `convertUser` are foreign functions. They are parameters of `Gapi.CreateUser`, and hashing may fail.
- SQL, connections and contexts. The store's schema constraints are not modelled: the owner foreign key and the one-account-per-owner-and-currency rule. `Db.CreateAccount` fails only when the ID sequence runs out. The handlers take the store's outcome as an input, so they still cover the 403 path.
- `ListAccounts` follows the generated query (`WHERE owner = $1 ORDER BY id LIMIT $2 OFFSET $3`), whose SQL text is not part of this model. A negative LIMIT or OFFSET fails with PostgreSQL's error code name, as PostgreSQL refuses them.
- Creation time is an opaque positive number that the store keeps exactly. This is stronger than the tests' one-second tolerance (`WithinDuration`).
- The random test-data generators.
