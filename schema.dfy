/**
 The three relations created by `createTables` in db.js and the constraints declared on
 them: primary keys, the unique username, the unique (user_id, product_id) pair, the two
 foreign keys from favorites, and the VARCHAR(255) column widths.
 */
module Schema {
  import opened Wrappers

  /** A UUID primary key: a 128-bit value. */
  type Uuid = x: nat | x < 0x1_0000_0000_0000_0000_0000_0000_0000_0000

  /** Declared width of the VARCHAR(255) columns users.username and products.name. */
  const MAX_VARCHAR_LENGTH: nat := 255

  datatype User = User(id: Uuid, username: string, passwordHash: string)

  datatype Product = Product(id: Uuid, name: string)

  datatype Favorite = Favorite(id: Uuid, userId: Uuid, productId: Uuid)

  /** The database: whether the three tables exist, and each table keyed by its primary key. */
  datatype Store = Store(
    tablesExist: bool,
    users: map<Uuid, User>,
    products: map<Uuid, Product>,
    favorites: map<Uuid, Favorite>)

  /** The store before `createTables` has ever run. */
  const EMPTY: Store := Store(false, map[], map[], map[])

  // Primary keys: each row is stored under its own id, so no two rows share one.

  predicate UsersKeyed(users: map<Uuid, User>) {
    forall k | k in users :: users[k].id == k
  }

  predicate ProductsKeyed(products: map<Uuid, Product>) {
    forall k | k in products :: products[k].id == k
  }

  predicate FavoritesKeyed(favorites: map<Uuid, Favorite>) {
    forall k | k in favorites :: favorites[k].id == k
  }

  /** No two users share a username (db.js:28). */
  predicate UniqueUsernames(users: map<Uuid, User>) {
    forall a, b | a in users && b in users && users[a].username == users[b].username :: a == b
  }

  /** No user favorites the same product twice (db.js:41). */
  predicate UniqueUserProduct(favorites: map<Uuid, Favorite>) {
    forall a, b | a in favorites && b in favorites
                  && favorites[a].userId == favorites[b].userId
                  && favorites[a].productId == favorites[b].productId :: a == b
  }

  /** Every favorite names an existing user and an existing product (db.js:39-40). */
  predicate FavoritesReference(s: Store) {
    forall k | k in s.favorites :: s.favorites[k].userId in s.users && s.favorites[k].productId in s.products
  }

  /** PostgreSQL text cannot hold the character U+0000; a statement passing one fails. */
  predicate TextValue(v: string) {
    '\0' !in v
  }

  predicate AllSpaces(t: string) {
    forall i | 0 <= i < |t| :: t[i] == ' '
  }

  /** The value a VARCHAR(255) column (db.js:28, 34) stores for the string a statement
      passes, or None when the statement fails: a value holding U+0000 is refused; a longer
      value is silently cut to 255 characters when everything past them is spaces, and is
      refused otherwise. */
  function Varchar(v: string): (r: Option<string>)
    ensures r.Some? ==> |r.value| <= MAX_VARCHAR_LENGTH && TextValue(r.value)
    ensures r.Some? ==> r.value <= v && AllSpaces(v[|r.value|..])
    ensures |v| <= MAX_VARCHAR_LENGTH && TextValue(v) ==> r == Some(v)
    ensures |v| > MAX_VARCHAR_LENGTH && TextValue(v) && AllSpaces(v[MAX_VARCHAR_LENGTH..]) ==>
      r == Some(v[..MAX_VARCHAR_LENGTH])
    ensures !TextValue(v) ==> r.None?
    ensures |v| > MAX_VARCHAR_LENGTH && !AllSpaces(v[MAX_VARCHAR_LENGTH..]) ==> r.None?
  {
    if !TextValue(v) then None
    else if |v| <= MAX_VARCHAR_LENGTH then Some(v)
    else if AllSpaces(v[MAX_VARCHAR_LENGTH..]) then Some(v[..MAX_VARCHAR_LENGTH])
    else None
  }

  /** Stored usernames and product names fit VARCHAR(255), and no text column holds U+0000. */
  predicate ColumnsFit(s: Store) {
    && (forall k | k in s.users ::
          |s.users[k].username| <= MAX_VARCHAR_LENGTH && TextValue(s.users[k].username)
          && TextValue(s.users[k].passwordHash))
    && (forall k | k in s.products ::
          |s.products[k].name| <= MAX_VARCHAR_LENGTH && TextValue(s.products[k].name))
  }

  /** Every constraint of the schema; tables that do not exist hold no rows. */
  predicate Valid(s: Store) {
    && (!s.tablesExist ==> s.users == map[] && s.products == map[] && s.favorites == map[])
    && UsersKeyed(s.users)
    && ProductsKeyed(s.products)
    && FavoritesKeyed(s.favorites)
    && UniqueUsernames(s.users)
    && UniqueUserProduct(s.favorites)
    && FavoritesReference(s)
    && ColumnsFit(s)
  }

  /** A table keyed by a function of its rows has as many distinct rows as keys. */
  lemma {:induction false} KeyedValuesCount<V>(m: map<Uuid, V>, key: V -> Uuid)
    requires forall k | k in m :: key(m[k]) == k
    ensures |m.Values| == |m|
  {
    if m != map[] {
      var k :| k in m;
      var rest := m - {k};
      KeyedValuesCount(rest, key);
      assert m.Values == rest.Values + {m[k]} by {
        forall v | v in m.Values ensures v in rest.Values + {m[k]} {
          var j :| j in m && m[j] == v;
          if j != k { assert j in rest; }
        }
        forall v | v in rest.Values ensures v in m.Values {
          var j :| j in rest && rest[j] == v;
          assert m[j] == v;
        }
      }
      assert m[k] !in rest.Values;
      assert rest.Keys == m.Keys - {k};
    }
  }
}
