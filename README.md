# The Acme store's data layer, modelled in Dafny

This project models the integrity layer of the Acme store backend (`db.js`): three
relations — users, products and favorites — created by `createTables`, and the repository
functions that insert into, delete from and list them over one shared database client.
The model proves that the declared constraints hold across every sequence of calls.
Those constraints are primary keys, the unique username, the unique (user, product) pair,
the two foreign keys from favorites, and the two VARCHAR(255) columns. On those columns a
longer value whose excess is all spaces is cut to 255 characters, and any text value
holding U+0000 is refused. It also proves what each
call returns, when it fails, and that one user's calls never change another user's
favorites.

Modules, one per component:

- `Schema` (schema.dfy): the row types, the `Store` (whether the tables exist, plus each
  table as a map keyed by primary key) and the constraints as `Valid`.
- `Statements` (statements.dfy): each SQL statement as a function of the store.
  - An INSERT is accepted exactly when its generated primary key is unused and the store
    with the new row still satisfies every constraint. Otherwise the error is caught: the
    result is `None` and the store is unchanged.
  - The `*Accepted` lemmas turn this declarative rule into concrete checks: username
    taken, referenced row missing, pair already favorited, value not storable in its
    column.
- `Queries` (queries.dfy): the three SELECTs. Results are sets, because no query has an
  ORDER BY and every row carries its own key.
- `Db` (client.dfy): the module-level `client` as a class with the three tables as map
  fields.
  - Each method runs the concrete checks and is proved equal to its `Statements`
    function.
  - `uuid_generate_v4()` and bcrypt's salt are random, so they are parameters.
  - `bcrypt.hash` is the uninterpreted function `hash`, called with cost factor 10. Its
    results have the type `Digest`, text without U+0000, as bcrypt's "$2b$" output is.
  - An id that collides with an existing one fails on the primary key, as it would in
    the database.
- `History` (history.dfy): sequences of calls, with invariant preservation and per-user
  isolation of favorites.
- `Bootstrap` (bootstrap.dfy): `seedData` from index.js, in its three phases.

Three behaviours of the code that are easy to miss, and that the model keeps:

- Every failure is caught and turned into `undefined` (`None`). A constraint violation and
  a connection failure are not told apart.
- `createUser` returns the whole inserted row, password hash included (db.js:62).
- Seeding on a store that already holds the demo users inserts the two demo products
  again and creates no favorite. Reading `.id` of the failed `createUser` result throws,
  which ends seeding.

## Model

| member | source | states |
|---|---|---|
| `Schema.Valid` | db.js:26-42 | primary keys, unique username, unique (user_id, product_id), both foreign keys, the VARCHAR(255) and TEXT columns' contents; no rows without tables |
| `Schema.Varchar` | db.js:28-34 | a VARCHAR(255) column stores a value of at most 255 characters unchanged, stores a longer one whose excess is all spaces cut to 255 characters, and refuses one with more than that or any value holding U+0000; what it stores is a prefix of the value followed only by spaces |
| `Statements.CreateTablesEstablishesValid` | db.js:23-48 | the store before any table exists satisfies the constraints, and createTables turns it into three empty tables that do too |
| `Statements.CreateTables` | db.js:23-48 | afterwards the tables exist; on a store that already has them nothing changes (idempotent, rows kept); on a fresh store the three tables are empty; constraints preserved |
| `Statements.InsertProduct` | db.js:50-57 | on failure the store is unchanged; on success exactly one product row, with the previously unused id and the name as its column stores it, is added and returned, nothing else changes; constraints preserved |
| `Statements.InsertUser` | db.js:59-67 | on failure the store is unchanged; on success exactly one user row with that id, the username as its column stores it, and the hash is added and returned, nothing else changes; constraints preserved |
| `Statements.InsertFavorite` | db.js:96-103 | on failure the store is unchanged; on success exactly one favorite row with that user and product is added and returned, nothing else changes; constraints preserved |
| `Statements.DeleteFavorite` | db.js:105-112 | users, products and table existence untouched; favorites only lose rows, the rest unchanged; constraints preserved |
| `Statements.InsertProductAccepted` | db.js:32-35 | createProduct succeeds iff the tables exist, the generated id is unused and the VARCHAR(255) column accepts the name (see `Schema.Varchar`); no uniqueness on name |
| `Statements.InsertUserAccepted` | db.js:26-30 | createUser succeeds iff the tables exist, the generated id is unused, the VARCHAR(255) column accepts the username, the hash holds no U+0000, and no user already has the username as stored |
| `Statements.InsertFavoriteAccepted` | db.js:37-42 | createFavorite succeeds iff the tables exist, the generated id is unused, the user and the product exist, and that user has not already favorited that product |
| `Statements.DeleteFavoriteOwnerScoped` | db.js:107 | destroyFavorite removes favorite f exactly when f exists and belongs to the named user; for another user's favorite or an unknown id the store is unchanged |
| `Statements.DuplicateUsernameRejected` | db.js:28 | after a user is created, creating another user with the same username fails |
| `Statements.DistinctUsernamesAccepted` | db.js:28 | two new users with different usernames as stored, storable values and unused ids are both created |
| `Statements.DuplicateFavoriteRejected` | db.js:41 | after a favorite is created, favoriting the same product for the same user again fails |
| `Statements.DuplicateProductNameAccepted` | db.js:34 | a second product with an existing name is accepted, and both rows coexist |
| `Queries.FetchUsers` | db.js:69-76 | fails iff the tables do not exist; lists exactly the (id, username) of each user |
| `Queries.FetchProducts` | db.js:78-85 | fails iff the tables do not exist; lists exactly the stored product rows |
| `Queries.FetchFavorites` | db.js:87-94 | fails iff the tables do not exist; lists exactly the favorites whose user_id is the given user; an unknown user gets the empty listing |
| `Queries.FetchUsersOmitsHashes` | db.js:71 | two stores that differ only in password hashes give the same fetchUsers result: the hash is never exposed |
| `Queries.FetchUsersCount` | db.js:71 | fetchUsers lists each user exactly once |
| `Queries.FetchProductsCount` | db.js:80 | fetchProducts lists each product exactly once |
| `Queries.FetchProductsAfterInsert` | db.js:52 | after createProduct, fetchProducts lists the new row, with the name as stored, which was not listed before, beside all earlier rows |
| `Queries.FetchFavoritesAfterInsert` | db.js:98 | after createFavorite, the new row appears in its own user's listing only; every listing is otherwise unchanged |
| `Queries.FetchFavoritesAfterDelete` | db.js:107 | after destroyFavorite, only the named user's listing can lose a row, and only the row with that id owned by that user |
| `Db.Client.constructor` | db.js:6-12 | a client over a persisted, constraint-satisfying database, with the given hash function |
| `Db.Client.CreateTables` | db.js:23-48 | the new state is `Statements.CreateTables` of the old one; constraints kept |
| `Db.Client.CreateProduct` | db.js:50-57 | returns a row iff tables exist, id unused, and the column accepts the name; the row carries the name as stored; the new state and result are exactly `Statements.InsertProduct`'s; constraints kept |
| `Db.Client.CreateUser` | db.js:59-67 | hashes the password with cost 10, returns the full row (hash included, username as stored) iff tables exist, id unused, the column accepts the username and no user has it as stored; otherwise None and nothing changes; agrees with `Statements.InsertUser` |
| `Db.Client.CreateFavorite` | db.js:96-103 | returns the row iff tables exist, id unused, user and product exist and the pair is new; otherwise None and nothing changes; agrees with `Statements.InsertFavorite` |
| `Db.Client.DestroyFavorite` | db.js:105-112 | the new state is `Statements.DeleteFavorite` of the old one; constraints kept |
| `History.Apply` | db.js:23-112 | one repository call keeps every constraint and never removes the tables |
| `History.Run` | db.js:23-112 | every sequence of calls keeps every constraint, and tables once created stay |
| `History.ApplyFavorites` | db.js:87-112 | one call changes a user's listing only if it is that user's createFavorite or destroyFavorite; it adds only the row it creates and removes only that user's row with the given id |
| `History.CreateFavoriteListing` | db.js:96-103 | a createFavorite call leaves other users' listings unchanged, adds at most its own row, and removes nothing |
| `History.DestroyFavoriteListing` | db.js:105-112 | a destroyFavorite call leaves other users' listings unchanged, removes at most the owner's row with that id, and keeps every other row |
| `History.RunKeepsOtherFavorites` | db.js:87-112 | across any sequence of calls none of which is the user's own favorite call, the user's favorites stay exactly the same |
| `History.ListedWasCreated` | db.js:87-103 | a favorite listed for a user at the end was listed at the start or created by one of the calls |
| `History.KeptUnlessDestroyed` | db.js:87-112 | a favorite listed for a user stays listed unless that user destroys it by id |
| `History.CreatedThenKept` | db.js:96-112 | a favorite whose createFavorite succeeded is still listed for its user after any later calls, unless that user destroys it by id |
| `History.FavoriteLifecycle` | db.js:59-112 | create user, product, favorite: the listing is exactly that favorite; the same pair again fails; after destroying it the listing is empty |
| `Bootstrap.SeedUsers` | index.js:81-83 | on a store with no users both demo users are created; if both usernames are taken both calls fail and the users table is unchanged |
| `Bootstrap.SeedProducts` | index.js:85-87 | with unused ids both demo products are inserted, even if products of those names exist |
| `Bootstrap.SeedFavorites` | index.js:89-91 | a missing user1 or product1 ends seeding with no favorite; on a fresh store one favorite per demo user is made |
| `Bootstrap.SeedData` | index.js:79-97 | on an empty store exactly the demo rows are made; a second run leaves users and favorites unchanged and adds the two products again |

## Left out

- Connection set-up and the hard-coded credentials (db.js:6-21): I/O plumbing. The constructor takes the persisted contents instead.
- Connection or transport failures: the model assumes every call reaches the database. Failures come only from constraints or missing tables.
- Logging, and async/await: each call is one sequential step.
- Concurrent callers on the shared connection: the database's per-statement atomicity is not visible in this code.
- The internals of bcrypt: `hash` is uninterpreted. Nothing is claimed about it, for example that a hash differs from its password, beyond its result holding no U+0000.
- Db.Client.CreateUser: since a `Digest` never holds U+0000, the TEXT column's refusal of such a hash (modelled in `Statements.InsertUser`) cannot arise through the client.
- The server's encoding checks: strings are sequences of Unicode scalar values, and a character count is their number, so conversion errors between client and server encodings are not modelled.
- The internals of `uuid_generate_v4()`: generated ids are parameters. The model also does not capture that this function needs the uuid-ossp extension, which `createTables` does not install.
- Text-to-UUID conversion of id arguments: ids are taken already as UUIDs. In the database a malformed id string makes the statement fail, so `fetchFavorites` could return undefined rather than an empty list.
- NOT NULL columns (db.js:28, 29, 34, 39, 40): every argument of the model is present. JavaScript `null`/`undefined` arguments are not modelled.
- Partly created schemas, such as users existing without favorites, and a failing `createTables`: the three tables are made together and always succeed.
- The definitions of tables that `createTables` finds already in place: they are assumed to match db.js:26-42.
- The HTTP routes, body parsing and status codes of index.js:20-78.
