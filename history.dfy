/**
 Sequences of repository calls, each one sequential step on the store, and what holds
 across any such sequence: the schema's constraints, and the isolation of each user's
 favorites from every other user's calls.
 */
module History {
  import opened Wrappers
  import opened Schema
  import opened Statements
  import opened Queries

  /** One state-changing call, with the ids and hashes it was given or generated. */
  datatype Call =
    | CreateTablesCall
    | CreateProductCall(productId: Uuid, name: string)
    | CreateUserCall(id: Uuid, username: string, passwordHash: string)
    | CreateFavoriteCall(favorite: Favorite)
    | DestroyFavoriteCall(userId: Uuid, favoriteId: Uuid)

  function Apply(s: Store, c: Call): (r: Store)
    ensures Valid(s) ==> Valid(r)
    ensures s.tablesExist ==> r.tablesExist
  {
    match c
    case CreateTablesCall => CreateTables(s)
    case CreateProductCall(p, name) => InsertProduct(s, p, name).store
    case CreateUserCall(u, name, hash) => InsertUser(s, u, name, hash).store
    case CreateFavoriteCall(f) => InsertFavorite(s, f).store
    case DestroyFavoriteCall(u, f) => DeleteFavorite(s, u, f)
  }

  /** The store after the calls, in order. Every sequence of calls keeps every constraint of
      the schema, and tables once made stay made. */
  function Run(s: Store, calls: seq<Call>): (r: Store)
    ensures Valid(s) ==> Valid(r)
    ensures s.tablesExist ==> r.tablesExist
    decreases |calls|
  {
    if calls == [] then s else Run(Apply(s, calls[0]), calls[1..])
  }

  /** The call creates or destroys a favorite on behalf of this user. */
  predicate TouchesFavoritesOf(c: Call, userId: Uuid) {
    || (c.CreateFavoriteCall? && c.favorite.userId == userId)
    || (c.DestroyFavoriteCall? && c.userId == userId)
  }

  /** How one call changes a user's listing: only that user's own favorite calls can change
      it, a creation adds only the row it created, and a destruction removes only that
      user's row with the given id. */
  lemma ApplyFavorites(s: Store, c: Call, userId: Uuid)
    requires Valid(s) && s.tablesExist
    ensures !TouchesFavoritesOf(c, userId) ==> FetchFavorites(Apply(s, c), userId) == FetchFavorites(s, userId)
    ensures forall f | f in FetchFavorites(Apply(s, c), userId).value ::
      f in FetchFavorites(s, userId).value || c == CreateFavoriteCall(f)
    ensures forall f | f in FetchFavorites(s, userId).value && c != DestroyFavoriteCall(userId, f.id) ::
      f in FetchFavorites(Apply(s, c), userId).value
  {
    match c
    case CreateTablesCall =>
    case CreateProductCall(p, name) =>
    case CreateUserCall(u, name, hash) =>
    case CreateFavoriteCall(g) => CreateFavoriteListing(s, g, userId);
    case DestroyFavoriteCall(u, g) => DestroyFavoriteListing(s, u, g, userId);
  }

  /** ApplyFavorites for a createFavorite call. */
  lemma CreateFavoriteListing(s: Store, g: Favorite, userId: Uuid)
    requires Valid(s) && s.tablesExist
    ensures g.userId != userId ==>
      FetchFavorites(InsertFavorite(s, g).store, userId) == FetchFavorites(s, userId)
    ensures FetchFavorites(InsertFavorite(s, g).store, userId).value <= FetchFavorites(s, userId).value + {g}
    ensures FetchFavorites(s, userId).value <= FetchFavorites(InsertFavorite(s, g).store, userId).value
  {
    if InsertFavorite(s, g).result.Some? {
      FetchFavoritesAfterInsert(s, g, userId);
      if g.userId != userId {
        assert FetchFavorites(InsertFavorite(s, g).store, userId).value == FetchFavorites(s, userId).value;
      }
    }
  }

  /** ApplyFavorites for a destroyFavorite call. */
  lemma DestroyFavoriteListing(s: Store, owner: Uuid, favoriteId: Uuid, userId: Uuid)
    requires Valid(s) && s.tablesExist
    ensures owner != userId ==>
      FetchFavorites(DeleteFavorite(s, owner, favoriteId), userId) == FetchFavorites(s, userId)
    ensures FetchFavorites(DeleteFavorite(s, owner, favoriteId), userId).value <= FetchFavorites(s, userId).value
    ensures forall f | f in FetchFavorites(s, userId).value && (owner != userId || f.id != favoriteId) ::
      f in FetchFavorites(DeleteFavorite(s, owner, favoriteId), userId).value
  {
    FetchFavoritesAfterDelete(s, owner, favoriteId, userId);
    forall f | f in FetchFavorites(s, userId).value && (owner != userId || f.id != favoriteId)
      ensures f in FetchFavorites(DeleteFavorite(s, owner, favoriteId), userId).value
    {
      assert f.id in s.favorites && s.favorites[f.id] == f;
    }
  }

  /** Whatever other users do, and whatever users and products are created, a user's
      favorites stay exactly as they were. */
  lemma {:induction false} RunKeepsOtherFavorites(s: Store, calls: seq<Call>, userId: Uuid)
    requires Valid(s) && s.tablesExist
    requires forall i | 0 <= i < |calls| :: !TouchesFavoritesOf(calls[i], userId)
    ensures FetchFavorites(Run(s, calls), userId) == FetchFavorites(s, userId)
    decreases |calls|
  {
    if calls != [] {
      ApplyFavorites(s, calls[0], userId);
      var rest := calls[1..];
      assert forall i | 0 <= i < |rest| :: rest[i] == calls[i + 1];
      RunKeepsOtherFavorites(Apply(s, calls[0]), rest, userId);
    }
  }

  /** A favorite listed for a user at the end was listed at the start or was created by
      one of the calls. */
  lemma {:induction false} ListedWasCreated(s: Store, calls: seq<Call>, userId: Uuid, f: Favorite)
    requires Valid(s) && s.tablesExist
    requires f in FetchFavorites(Run(s, calls), userId).value
    ensures f in FetchFavorites(s, userId).value || exists i | 0 <= i < |calls| :: calls[i] == CreateFavoriteCall(f)
    decreases |calls|
  {
    if calls != [] {
      var t := Apply(s, calls[0]);
      var rest := calls[1..];
      ListedWasCreated(t, rest, userId, f);
      if f in FetchFavorites(t, userId).value {
        ApplyFavorites(s, calls[0], userId);
      } else {
        var i :| 0 <= i < |rest| && rest[i] == CreateFavoriteCall(f);
        assert calls[i + 1] == CreateFavoriteCall(f);
      }
    }
  }

  /** A favorite listed for a user stays listed through every call that is not that user's
      destroyFavorite of its id. */
  lemma {:induction false} KeptUnlessDestroyed(s: Store, calls: seq<Call>, userId: Uuid, f: Favorite)
    requires Valid(s) && s.tablesExist
    requires f in FetchFavorites(s, userId).value
    requires forall i | 0 <= i < |calls| :: calls[i] != DestroyFavoriteCall(userId, f.id)
    ensures f in FetchFavorites(Run(s, calls), userId).value
    decreases |calls|
  {
    if calls != [] {
      ApplyFavorites(s, calls[0], userId);
      var rest := calls[1..];
      assert forall i | 0 <= i < |rest| :: rest[i] == calls[i + 1];
      KeptUnlessDestroyed(Apply(s, calls[0]), rest, userId, f);
    }
  }

  /** A favorite whose createFavorite succeeded stays listed for its user through every
      later call that is not that user's destroyFavorite of its id. */
  lemma CreatedThenKept(s: Store, f: Favorite, calls: seq<Call>)
    requires Valid(s) && s.tablesExist
    requires InsertFavorite(s, f).result.Some?
    requires forall i | 0 <= i < |calls| :: calls[i] != DestroyFavoriteCall(f.userId, f.id)
    ensures f in FetchFavorites(Run(InsertFavorite(s, f).store, calls), f.userId).value
  {
    FetchFavoritesAfterInsert(s, f, f.userId);
    KeptUnlessDestroyed(InsertFavorite(s, f).store, calls, f.userId, f);
  }

  /** A favorite's life: create a user, a product and a favorite linking them; the user's
      listing is exactly that favorite; favoriting the same product again fails; after the
      user destroys the favorite the listing is empty again. */
  lemma FavoriteLifecycle(s: Store, userId: Uuid, username: string, passwordHash: string,
                          productId: Uuid, name: string, first: Favorite, second: Favorite)
    requires Valid(s) && s.tablesExist
    requires InsertUser(s, userId, username, passwordHash).result.Some?
    requires InsertProduct(InsertUser(s, userId, username, passwordHash).store, productId, name).result.Some?
    requires first.userId == userId && first.productId == productId && first.id !in s.favorites
    requires second.userId == userId && second.productId == productId
    ensures
      var afterUser := InsertUser(s, userId, username, passwordHash).store;
      var afterProduct := InsertProduct(afterUser, productId, name).store;
      var afterFavorite := InsertFavorite(afterProduct, first);
      && afterFavorite.result == Some(first)
      && FetchFavorites(afterFavorite.store, userId) == Some({first})
      && InsertFavorite(afterFavorite.store, second).result.None?
      && FetchFavorites(DeleteFavorite(afterFavorite.store, userId, first.id), userId) == Some({})
  {
    var afterUser := InsertUser(s, userId, username, passwordHash).store;
    var afterProduct := InsertProduct(afterUser, productId, name).store;
    assert afterProduct.favorites == s.favorites && userId !in s.users;
    assert FetchFavorites(s, userId) == Some({});
    assert FetchFavorites(afterProduct, userId).value == {};
    InsertFavoriteAccepted(afterProduct, first);
    var afterFavorite := InsertFavorite(afterProduct, first);
    FetchFavoritesAfterInsert(afterProduct, first, userId);
    assert FetchFavorites(afterFavorite.store, userId).value == {first};
    DuplicateFavoriteRejected(afterProduct, first, second);
    FetchFavoritesAfterDelete(afterFavorite.store, userId, first.id, userId);
    assert FetchFavorites(DeleteFavorite(afterFavorite.store, userId, first.id), userId).value == {};
  }
}
