/**
 The start-up seeding in index.js: two users, two products and one favorite per user,
 made by a fixed sequence of repository calls on the shared client.
 */
module Bootstrap {
  import opened Wrappers
  import opened Schema
  import Statements
  import opened Db

  /** What uuid_generate_v4() and bcrypt's salt generator produce during one seeding run. */
  datatype SeedDraws = SeedDraws(
    user1: Uuid, salt1: Salt, user2: Uuid, salt2: Salt,
    product1: Uuid, product2: Uuid, favorite1: Uuid, favorite2: Uuid)

  function DemoUser1(c: Client, g: SeedDraws): User reads c {
    User(g.user1, "user1", c.hash("password1", SALT_ROUNDS, g.salt1))
  }

  function DemoUser2(c: Client, g: SeedDraws): User reads c {
    User(g.user2, "user2", c.hash("password2", SALT_ROUNDS, g.salt2))
  }

  /** The "create users" phase of seedData. */
  method SeedUsers(c: Client, g: SeedDraws) returns (user1: Option<User>, user2: Option<User>)
    requires c.Valid()
    modifies c
    ensures c.Valid()
    ensures c.tablesExist == old(c.tablesExist) && c.products == old(c.products) && c.favorites == old(c.favorites)
    ensures user1.Some? ==> user1.value.id in c.users
    ensures user2.Some? ==> user2.value.id in c.users
    ensures old(c.tablesExist) && old(c.users) == map[] && g.user1 != g.user2 ==>
      && user1 == Some(DemoUser1(c, g)) && user2 == Some(DemoUser2(c, g))
      && c.users == map[g.user1 := DemoUser1(c, g), g.user2 := DemoUser2(c, g)]
    ensures old(Statements.UsernameTaken(c.users, "user1")) && old(Statements.UsernameTaken(c.users, "user2")) ==>
      user1.None? && user2.None? && c.users == old(c.users)
  {
    user1 := c.CreateUser("user1", "password1", g.salt1, g.user1);
    if old(c.tablesExist) && old(c.users) == map[] && g.user1 != g.user2 {
      assert !Statements.UsernameTaken(c.users, "user2") by {
        assert "user1"[4] != "user2"[4];
      }
    }
    user2 := c.CreateUser("user2", "password2", g.salt2, g.user2);
  }

  /** The "create products" phase of seedData. Product names are not unique, so both
      inserts succeed whenever the generated ids are unused. */
  method SeedProducts(c: Client, g: SeedDraws) returns (product1: Option<Product>, product2: Option<Product>)
    requires c.Valid()
    modifies c
    ensures c.Valid()
    ensures c.tablesExist == old(c.tablesExist) && c.users == old(c.users) && c.favorites == old(c.favorites)
    ensures product1.Some? ==> product1.value.id in c.products
    ensures product2.Some? ==> product2.value.id in c.products
    ensures old(c.tablesExist) && g.product1 !in old(c.products) && g.product2 !in old(c.products)
            && g.product1 != g.product2 ==>
      && product1 == Some(Product(g.product1, "Product 1")) && product2 == Some(Product(g.product2, "Product 2"))
      && c.products == old(c.products)[g.product1 := Product(g.product1, "Product 1")]
                                      [g.product2 := Product(g.product2, "Product 2")]
  {
    product1 := c.CreateProduct("Product 1", g.product1);
    product2 := c.CreateProduct("Product 2", g.product2);
  }

  /** The "create favorites" phase of seedData. Reading `.id` of a missing user or product
      throws, which ends the seeding; a failed createFavorite yields None and seeding goes on. */
  method SeedFavorites(c: Client, g: SeedDraws, user1: Option<User>, user2: Option<User>,
                       product1: Option<Product>, product2: Option<Product>)
    requires c.Valid()
    modifies c
    ensures c.Valid()
    ensures c.tablesExist == old(c.tablesExist) && c.users == old(c.users) && c.products == old(c.products)
    ensures user1.None? || product1.None? ==> c.favorites == old(c.favorites)
    ensures
      && old(c.tablesExist) && old(c.favorites) == map[] && g.favorite1 != g.favorite2
      && user1.Some? && user2.Some? && product1.Some? && product2.Some?
      && user1.value.id in old(c.users) && user2.value.id in old(c.users) && user1.value.id != user2.value.id
      && product1.value.id in old(c.products) && product2.value.id in old(c.products) ==>
      c.favorites == map[g.favorite1 := Favorite(g.favorite1, user1.value.id, product1.value.id),
                         g.favorite2 := Favorite(g.favorite2, user2.value.id, product2.value.id)]
  {
    if user1.None? || product1.None? {
      return;
    }
    var favorite1 := c.CreateFavorite(user1.value.id, product1.value.id, g.favorite1);
    if user2.None? || product2.None? {
      return;
    }
    var favorite2 := c.CreateFavorite(user2.value.id, product2.value.id, g.favorite2);
  }

  /** seedData: two users, two products, then one favorite per user. On an empty store it
      makes exactly the demo rows; run again, both createUser calls fail on the unique
      username, both products are inserted a second time, and no favorite is made. */
  method SeedData(c: Client, g: SeedDraws)
    requires c.Valid()
    modifies c
    ensures c.Valid()
    ensures
      old(c.State()) == Store(true, map[], map[], map[])
      && g.user1 != g.user2 && g.product1 != g.product2 && g.favorite1 != g.favorite2 ==>
      && c.users == map[g.user1 := DemoUser1(c, g), g.user2 := DemoUser2(c, g)]
      && c.products == map[g.product1 := Product(g.product1, "Product 1"),
                           g.product2 := Product(g.product2, "Product 2")]
      && c.favorites == map[g.favorite1 := Favorite(g.favorite1, g.user1, g.product1),
                            g.favorite2 := Favorite(g.favorite2, g.user2, g.product2)]
    ensures
      old(c.tablesExist)
      && old(Statements.UsernameTaken(c.users, "user1")) && old(Statements.UsernameTaken(c.users, "user2"))
      && g.product1 !in old(c.products) && g.product2 !in old(c.products) && g.product1 != g.product2 ==>
      && c.users == old(c.users)
      && c.favorites == old(c.favorites)
      && c.products == old(c.products)[g.product1 := Product(g.product1, "Product 1")]
                                      [g.product2 := Product(g.product2, "Product 2")]
  {
    var user1, user2 := SeedUsers(c, g);
    var product1, product2 := SeedProducts(c, g);
    SeedFavorites(c, g, user1, user2, product1, product2);
  }
}
