/**
 The three read-only SELECTs of db.js as functions of the store, and how each listing
 changes under the statements. A listing is a set: the queries have no ORDER BY, so no
 order is promised, and every row carries its own primary key, so no two rows coincide.
 */
module Queries {
  import opened Wrappers
  import opened Schema
  import opened Statements

  /** The two columns fetchUsers selects (db.js:71): no password hash. */
  datatype UserView = UserView(id: Uuid, username: string)

  function ViewOfUsers(users: map<Uuid, User>): map<Uuid, UserView> {
    map k | k in users :: UserView(k, users[k].username)
  }

  /** fetchUsers (db.js:69-76): the id and username of every user. */
  function FetchUsers(s: Store): (r: Option<set<UserView>>)
    ensures r.None? <==> !s.tablesExist
    ensures r.Some? ==> forall v | v in r.value :: v.id in s.users && s.users[v.id].username == v.username
    ensures r.Some? ==> forall k | k in s.users :: UserView(k, s.users[k].username) in r.value
  {
    if s.tablesExist then
      var views := ViewOfUsers(s.users);
      assert forall k | k in s.users :: views[k] in views.Values;
      Some(views.Values)
    else None
  }

  /** fetchProducts (db.js:78-85): every product row, all columns. */
  function FetchProducts(s: Store): (r: Option<set<Product>>)
    ensures r.None? <==> !s.tablesExist
    ensures r.Some? && Valid(s) ==> forall p | p in r.value :: p.id in s.products && s.products[p.id] == p
    ensures r.Some? ==> forall k | k in s.products :: s.products[k] in r.value
  {
    if s.tablesExist then Some(s.products.Values) else None
  }

  /** fetchFavorites (db.js:87-94): every favorite row whose user is the given one. */
  function FetchFavorites(s: Store, userId: Uuid): (r: Option<set<Favorite>>)
    ensures r.None? <==> !s.tablesExist
    ensures r.Some? ==> forall f | f in r.value :: f.userId == userId && f in s.favorites.Values
    ensures r.Some? ==> forall k | k in s.favorites && s.favorites[k].userId == userId :: s.favorites[k] in r.value
    ensures Valid(s) && s.tablesExist && userId !in s.users ==> r == Some({})
  {
    if s.tablesExist then
      var rows := set k | k in s.favorites && s.favorites[k].userId == userId :: s.favorites[k];
      assert Valid(s) && userId !in s.users ==> rows == {} by {
        if Valid(s) && userId !in s.users {
          assert forall f :: f !in rows;
        }
      }
      Some(rows)
    else None
  }

  /** The password hash never reaches fetchUsers: two stores whose users differ only in
      their hashes list the same users. */
  lemma FetchUsersOmitsHashes(s: Store, t: Store)
    requires s.tablesExist == t.tablesExist && s.users.Keys == t.users.Keys
    requires forall k | k in s.users :: s.users[k].username == t.users[k].username
    ensures FetchUsers(s) == FetchUsers(t)
  {
    assert ViewOfUsers(s.users) == ViewOfUsers(t.users);
  }

  /** fetchUsers lists each user exactly once. */
  lemma FetchUsersCount(s: Store)
    requires Valid(s) && s.tablesExist
    ensures |FetchUsers(s).value| == |s.users|
  {
    var views := ViewOfUsers(s.users);
    assert views.Keys == s.users.Keys;
    KeyedValuesCount(views, (v: UserView) => v.id);
  }

  /** fetchProducts lists each product exactly once. */
  lemma FetchProductsCount(s: Store)
    requires Valid(s) && s.tablesExist
    ensures |FetchProducts(s).value| == |s.products|
  {
    KeyedValuesCount(s.products, (p: Product) => p.id);
  }

  /** Round trip: after createProduct succeeds, fetchProducts lists the new row, which was
      not listed before, beside every earlier product. */
  lemma FetchProductsAfterInsert(s: Store, id: Uuid, name: string)
    requires Valid(s)
    requires InsertProduct(s, id, name).result.Some?
    ensures var row := InsertProduct(s, id, name).result.value;
      && row == Product(id, Varchar(name).value)
      && row !in FetchProducts(s).value
      && FetchProducts(InsertProduct(s, id, name).store).value == FetchProducts(s).value + {row}
  {
  }

  /** After createFavorite succeeds, the new row is listed for its user and for no one else;
      every other listing is unchanged. */
  lemma FetchFavoritesAfterInsert(s: Store, row: Favorite, userId: Uuid)
    requires Valid(s)
    requires InsertFavorite(s, row).result.Some?
    ensures row !in FetchFavorites(s, userId).value
    ensures FetchFavorites(InsertFavorite(s, row).store, userId).value ==
      FetchFavorites(s, userId).value + (if userId == row.userId then {row} else {})
  {
  }

  /** After destroyFavorite, only the named user's listing can lose a row, and only the row
      with that id; no other user's favorites ever disappear. */
  lemma FetchFavoritesAfterDelete(s: Store, owner: Uuid, favoriteId: Uuid, userId: Uuid)
    requires Valid(s) && s.tablesExist
    ensures FetchFavorites(DeleteFavorite(s, owner, favoriteId), userId).value ==
      if favoriteId in s.favorites && s.favorites[favoriteId].userId == owner && userId == owner
      then FetchFavorites(s, userId).value - {s.favorites[favoriteId]}
      else FetchFavorites(s, userId).value
  {
  }
}
