/**
 The five state-changing SQL statements of db.js as functions of the store.

 Each INSERT follows SQL's semantics: the statement is accepted when the new primary key is
 not in use and the table with the new row still satisfies every declared constraint;
 otherwise it fails, the failure is caught, and the store is unchanged. The *Accepted
 lemmas turn that declarative rule into the concrete checks (username taken, referenced
 row missing, pair taken) that the repository's callers observe.
 */
module Statements {
  import opened Wrappers
  import opened Schema

  /** What a statement returns to its caller (the whole inserted row, or nothing) and the store after it. */
  datatype Step<R> = Step(result: Option<R>, store: Store)

  /** Some existing user already has this username. */
  predicate UsernameTaken(users: map<Uuid, User>, username: string) {
    exists k | k in users :: users[k].username == username
  }

  /** Some existing favorite already links this user to this product. */
  predicate PairTaken(favorites: map<Uuid, Favorite>, userId: Uuid, productId: Uuid) {
    exists k | k in favorites :: favorites[k].userId == userId && favorites[k].productId == productId
  }

  /** createTables (db.js:23-48), which creates each table only if it is missing: on a store that already has its
      tables they do nothing, so running them again keeps every row; otherwise they make
      three empty tables. */
  function CreateTables(s: Store): (r: Store)
    ensures r.tablesExist
    ensures s.tablesExist ==> r == s
    ensures !s.tablesExist && Valid(s) ==> r == Store(true, map[], map[], map[])
    ensures r.users == s.users && r.products == s.products && r.favorites == s.favorites
    ensures Valid(s) ==> Valid(r)
  {
    s.(tablesExist := true)
  }

  /** createProduct's insert of one product row under a generated id (db.js:52); the row
      stored and returned carries the name as the VARCHAR(255) column stores it. */
  function InsertProduct(s: Store, id: Uuid, name: string): (r: Step<Product>)
    ensures r.result.None? ==> r.store == s
    ensures r.result.Some? ==>
      && r.result.value.id == id && Varchar(name) == Some(r.result.value.name)
      && id !in s.products
      && r.store.products.Keys == s.products.Keys + {id}
      && r.store.products[id] == r.result.value
      && (forall k | k in s.products :: r.store.products[k] == s.products[k])
      && r.store.users == s.users && r.store.favorites == s.favorites
    ensures Valid(s) ==> Valid(r.store)
  {
    match Varchar(name)
    case None => Step(None, s)
    case Some(stored) =>
      var row := Product(id, stored);
      var after := s.(products := s.products[id := row]);
      if s.tablesExist && id !in s.products && Valid(after) then Step(Some(row), after) else Step(None, s)
  }

  /** createUser's insert of one user row, with the hashed password, under a generated id
      (db.js:62); the username is stored and returned as the VARCHAR(255) column stores it. */
  function InsertUser(s: Store, id: Uuid, username: string, passwordHash: string): (r: Step<User>)
    ensures r.result.None? ==> r.store == s
    ensures r.result.Some? ==>
      && r.result.value.id == id && Varchar(username) == Some(r.result.value.username)
      && r.result.value.passwordHash == passwordHash
      && id !in s.users
      && r.store.users.Keys == s.users.Keys + {id}
      && r.store.users[id] == r.result.value
      && (forall k | k in s.users :: r.store.users[k] == s.users[k])
      && r.store.products == s.products && r.store.favorites == s.favorites
    ensures Valid(s) ==> Valid(r.store)
  {
    match Varchar(username)
    case None => Step(None, s)
    case Some(stored) =>
      var row := User(id, stored, passwordHash);
      var after := s.(users := s.users[id := row]);
      if s.tablesExist && id !in s.users && Valid(after) then Step(Some(row), after) else Step(None, s)
  }

  /** createFavorite's insert of one favorite row under a generated id (db.js:98). */
  function InsertFavorite(s: Store, row: Favorite): (r: Step<Favorite>)
    ensures r.result.None? ==> r.store == s
    ensures r.result.Some? ==>
      && r.result.value == row
      && row.id !in s.favorites
      && r.store.favorites.Keys == s.favorites.Keys + {row.id}
      && r.store.favorites[row.id] == row
      && (forall k | k in s.favorites :: r.store.favorites[k] == s.favorites[k])
      && r.store.users == s.users && r.store.products == s.products
    ensures Valid(s) ==> Valid(r.store)
  {
    var after := s.(favorites := s.favorites[row.id := row]);
    if s.tablesExist && row.id !in s.favorites && Valid(after) then Step(Some(row), after) else Step(None, s)
  }

  /** destroyFavorite's delete of the favorites with the given id and the given user (db.js:107);
      nothing is returned either way. */
  function DeleteFavorite(s: Store, userId: Uuid, favoriteId: Uuid): (r: Store)
    ensures r.tablesExist == s.tablesExist && r.users == s.users && r.products == s.products
    ensures r.favorites.Keys <= s.favorites.Keys
    ensures forall k | k in r.favorites :: r.favorites[k] == s.favorites[k]
    ensures Valid(s) ==> Valid(r)
  {
    if !s.tablesExist then s
    else
      s.(favorites := map k | k in s.favorites
                              && !(s.favorites[k].userId == userId && s.favorites[k].id == favoriteId)
                            :: s.favorites[k])
  }

  // ---- What the constraints mean for each INSERT, on a store that satisfies them ----

  /** createProduct succeeds exactly when the tables exist, the generated id is unused and
      the name is a value the VARCHAR(255) column accepts; product names need not be unique. */
  lemma InsertProductAccepted(s: Store, id: Uuid, name: string)
    requires Valid(s)
    ensures InsertProduct(s, id, name).result.Some? <==>
      s.tablesExist && id !in s.products && Varchar(name).Some?
  {
  }

  /** createUser succeeds exactly when the tables exist, the generated id is unused, the
      username is a value the VARCHAR(255) column accepts, the hash holds no U+0000, and no
      existing user has the username as stored. */
  lemma InsertUserAccepted(s: Store, id: Uuid, username: string, passwordHash: string)
    requires Valid(s)
    ensures InsertUser(s, id, username, passwordHash).result.Some? <==>
      && s.tablesExist && id !in s.users && Varchar(username).Some? && TextValue(passwordHash)
      && !UsernameTaken(s.users, Varchar(username).value)
  {
    if s.tablesExist && id !in s.users && Varchar(username).Some? {
      var row := User(id, Varchar(username).value, passwordHash);
      var after := s.(users := s.users[id := row]);
      if UsernameTaken(s.users, row.username) {
        var k :| k in s.users && s.users[k].username == row.username;
        assert after.users[k].username == after.users[id].username && k != id;
        assert !UniqueUsernames(after.users);
      } else if TextValue(passwordHash) {
        assert UniqueUsernames(after.users);
        assert FavoritesReference(after);
        assert ColumnsFit(after);
        assert Valid(after);
      } else {
        assert !ColumnsFit(after) by { assert after.users[id] == row; }
      }
    }
  }

  /** createFavorite succeeds exactly when the tables exist, the generated id is unused, the
      user and the product exist, and the user has not already favorited the product. */
  lemma InsertFavoriteAccepted(s: Store, row: Favorite)
    requires Valid(s)
    ensures InsertFavorite(s, row).result.Some? <==>
      s.tablesExist && row.id !in s.favorites && row.userId in s.users && row.productId in s.products
      && !PairTaken(s.favorites, row.userId, row.productId)
  {
  }

  /** destroyFavorite removes the favorite with that id only when it belongs to the named
      user; for another user's favorite, or an unknown id, the store is unchanged. */
  lemma DeleteFavoriteOwnerScoped(s: Store, userId: Uuid, favoriteId: Uuid)
    requires Valid(s)
    ensures DeleteFavorite(s, userId, favoriteId).favorites ==
      if favoriteId in s.favorites && s.favorites[favoriteId].userId == userId
      then s.favorites - {favoriteId} else s.favorites
    ensures favoriteId !in s.favorites || s.favorites[favoriteId].userId != userId ==>
      DeleteFavorite(s, userId, favoriteId) == s
  {
  }

  // ---- Repeated calls ----

  /** Creating two users with the same username: the second insert fails, whatever id it gets. */
  lemma DuplicateUsernameRejected(s: Store, id: Uuid, username: string, passwordHash: string,
                                  secondId: Uuid, secondPasswordHash: string)
    requires Valid(s)
    requires InsertUser(s, id, username, passwordHash).result.Some?
    ensures InsertUser(InsertUser(s, id, username, passwordHash).store, secondId, username, secondPasswordHash).result.None?
  {
    var t := InsertUser(s, id, username, passwordHash).store;
    assert t.users[id].username == Varchar(username).value;
    InsertUserAccepted(t, secondId, username, secondPasswordHash);
  }

  /** Two users with different usernames, as stored, and different generated ids can both be created. */
  lemma DistinctUsernamesAccepted(s: Store, first: User, second: User)
    requires Valid(s) && s.tablesExist
    requires first.id !in s.users && second.id !in s.users && first.id != second.id
    requires Varchar(first.username).Some? && Varchar(second.username).Some?
    requires Varchar(first.username) != Varchar(second.username)
    requires TextValue(first.passwordHash) && TextValue(second.passwordHash)
    requires !UsernameTaken(s.users, Varchar(first.username).value)
    requires !UsernameTaken(s.users, Varchar(second.username).value)
    ensures InsertUser(s, first.id, first.username, first.passwordHash).result.Some?
    ensures InsertUser(InsertUser(s, first.id, first.username, first.passwordHash).store,
                       second.id, second.username, second.passwordHash).result.Some?
  {
    InsertUserAccepted(s, first.id, first.username, first.passwordHash);
    var t := InsertUser(s, first.id, first.username, first.passwordHash).store;
    var name := Varchar(second.username).value;
    assert !UsernameTaken(t.users, name) by {
      forall k | k in t.users ensures t.users[k].username != name {
        if k != first.id { assert t.users[k] == s.users[k]; }
      }
    }
    InsertUserAccepted(t, second.id, second.username, second.passwordHash);
  }

  /** Favoriting the same product twice for the same user: the second insert fails. */
  lemma DuplicateFavoriteRejected(s: Store, first: Favorite, second: Favorite)
    requires Valid(s)
    requires InsertFavorite(s, first).result.Some?
    requires second.userId == first.userId && second.productId == first.productId
    ensures InsertFavorite(InsertFavorite(s, first).store, second).result.None?
  {
  }

  /** Two products with the same name coexist: a second product with an existing name is accepted. */
  lemma DuplicateProductNameAccepted(s: Store, id: Uuid, name: string, secondId: Uuid)
    requires Valid(s)
    requires InsertProduct(s, id, name).result.Some?
    requires secondId != id && secondId !in s.products
    ensures InsertProduct(InsertProduct(s, id, name).store, secondId, name).result.Some?
    ensures var t := InsertProduct(InsertProduct(s, id, name).store, secondId, name).store;
      t.products[id].name == t.products[secondId].name
  {
    InsertProductAccepted(s, id, name);
    InsertProductAccepted(InsertProduct(s, id, name).store, secondId, name);
  }

  /** The store before any createTables is valid, and createTables turns it into three empty,
      valid tables: the schema's constraints hold from the start. */
  lemma CreateTablesEstablishesValid()
    ensures Valid(EMPTY)
    ensures CreateTables(EMPTY) == Store(true, map[], map[], map[]) && Valid(CreateTables(EMPTY))
  {
  }
}
