/**
 The module-level `client` of db.js and the functions that change what it holds. Each
 method runs the concrete checks the database performs for its one statement and is
 proved to agree with the statement's declarative meaning in the Statements module; a
 failed statement is caught and yields None with the store unchanged.
 */
module Db {
  import opened Wrappers
  import opened Schema
  import Statements

  /** The random salt bcrypt draws for each hash. */
  type Salt = seq<bv8>

  /** The cost factor createUser passes to bcrypt.hash. */
  const SALT_ROUNDS: nat := 10

  /** What bcrypt.hash yields: printable text (the "$2b$" format), so never a U+0000. */
  type Digest = d: string | TextValue(d)

  class Client {
    var tablesExist: bool
    var users: map<Uuid, User>
    var products: map<Uuid, Product>
    var favorites: map<Uuid, Favorite>

    /** bcrypt.hash(password, rounds) with the salt it drew: an uninterpreted function. */
    const hash: (string, nat, Salt) -> Digest

    function State(): Store
      reads this
    {
      Store(tablesExist, users, products, favorites)
    }

    predicate Valid()
      reads this
    {
      Schema.Valid(State())
    }

    /** A connection to a database whose contents persist from earlier runs. */
    constructor (persisted: Store, hash: (string, nat, Salt) -> Digest)
      requires Schema.Valid(persisted)
      ensures Valid() && State() == persisted && this.hash == hash
    {
      tablesExist := persisted.tablesExist;
      users := persisted.users;
      products := persisted.products;
      favorites := persisted.favorites;
      this.hash := hash;
    }

    /** createTables: make any missing table; existing tables and their rows are kept. */
    method CreateTables()
      requires Valid()
      modifies this
      ensures Valid()
      ensures State() == Statements.CreateTables(old(State()))
    {
      tablesExist := true;
    }

    /** createProduct(name); `generatedId` is what uuid_generate_v4() produced. The name is
        stored and returned as the VARCHAR(255) column coerces it. */
    method CreateProduct(name: string, generatedId: Uuid) returns (r: Option<Product>)
      requires Valid()
      modifies this
      ensures Valid()
      ensures r.Some? <==> old(tablesExist) && generatedId !in old(products) && Varchar(name).Some?
      ensures r.None? ==> State() == old(State())
      ensures r.Some? ==>
        && r.value == Product(generatedId, Varchar(name).value) && products == old(products)[generatedId := r.value]
        && tablesExist == old(tablesExist) && users == old(users) && favorites == old(favorites)
      ensures Statements.Step(r, State()) == Statements.InsertProduct(old(State()), generatedId, name)
    {
      Statements.InsertProductAccepted(State(), generatedId, name);
      var stored := Varchar(name);
      if tablesExist && generatedId !in products && stored.Some? {
        var row := Product(generatedId, stored.value);
        products := products[generatedId := row];
        r := Some(row);
      } else {
        r := None;
      }
    }

    /** createUser(username, password): hash, then insert; the whole row, hash included,
        is returned, the username as the VARCHAR(255) column coerces it. `salt` is bcrypt's
        draw, `generatedId` uuid_generate_v4()'s. */
    method CreateUser(username: string, password: string, salt: Salt, generatedId: Uuid)
      returns (r: Option<User>)
      requires Valid()
      modifies this
      ensures Valid()
      ensures r.Some? <==>
        && old(tablesExist) && generatedId !in old(users) && Varchar(username).Some?
        && !Statements.UsernameTaken(old(users), Varchar(username).value)
      ensures r.None? ==> State() == old(State())
      ensures r.Some? ==>
        && r.value == User(generatedId, Varchar(username).value, hash(password, SALT_ROUNDS, salt))
        && users == old(users)[generatedId := r.value]
        && tablesExist == old(tablesExist) && products == old(products) && favorites == old(favorites)
      ensures Statements.Step(r, State()) ==
        Statements.InsertUser(old(State()), generatedId, username, hash(password, SALT_ROUNDS, salt))
    {
      var passwordHash: string := hash(password, SALT_ROUNDS, salt);
      Statements.InsertUserAccepted(State(), generatedId, username, passwordHash);
      var stored := Varchar(username);
      if tablesExist && generatedId !in users && stored.Some?
         && !Statements.UsernameTaken(users, stored.value) {
        var row := User(generatedId, stored.value, passwordHash);
        users := users[generatedId := row];
        r := Some(row);
      } else {
        r := None;
      }
    }

    /** createFavorite(userId, productId); `generatedId` is what uuid_generate_v4() produced. */
    method CreateFavorite(userId: Uuid, productId: Uuid, generatedId: Uuid) returns (r: Option<Favorite>)
      requires Valid()
      modifies this
      ensures Valid()
      ensures r.Some? <==>
        old(tablesExist) && generatedId !in old(favorites) && userId in old(users) && productId in old(products)
        && !Statements.PairTaken(old(favorites), userId, productId)
      ensures r.None? ==> State() == old(State())
      ensures r.Some? ==>
        && r.value == Favorite(generatedId, userId, productId) && favorites == old(favorites)[generatedId := r.value]
        && tablesExist == old(tablesExist) && users == old(users) && products == old(products)
      ensures Statements.Step(r, State()) ==
        Statements.InsertFavorite(old(State()), Favorite(generatedId, userId, productId))
    {
      var row := Favorite(generatedId, userId, productId);
      Statements.InsertFavoriteAccepted(State(), row);
      if tablesExist && generatedId !in favorites && userId in users && productId in products
         && !Statements.PairTaken(favorites, userId, productId) {
        favorites := favorites[generatedId := row];
        r := Some(row);
      } else {
        r := None;
      }
    }

    /** destroyFavorite(userId, favoriteId): remove the favorite only if that user owns it;
        nothing is reported either way. */
    method DestroyFavorite(userId: Uuid, favoriteId: Uuid)
      requires Valid()
      modifies this
      ensures Valid()
      ensures State() == Statements.DeleteFavorite(old(State()), userId, favoriteId)
    {
      Statements.DeleteFavoriteOwnerScoped(State(), userId, favoriteId);
      if tablesExist && favoriteId in favorites && favorites[favoriteId].userId == userId {
        favorites := favorites - {favoriteId};
      }
    }
  }
}
