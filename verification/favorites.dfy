/** `FavoritesService`: a user marks a movie as a favourite once, lists
    their own favourites, looks one up and removes one. */
module Favorites {
  import opened Outcomes
  import opened Ids

  /** A row of `favorites`. */
  datatype Favorite = Favorite(movieId: int, userId: int)

  /** At most one favourite per (user, movie). */
  ghost predicate OnePerPair(favs: map<int, Favorite>) {
    forall a, b :: a in favs && b in favs && favs[a] == favs[b] ==> a == b
  }

  /** `createFavorite`: BadRequest when the user already has the movie
      among their favourites; otherwise one new row. Neither the movie nor
      the user is looked up. */
  function CreateFavorite(favs: map<int, Favorite>, userId: int, movieId: int)
    : (r: Result<(map<int, Favorite>, int)>)
    ensures r.Err? <==> exists k :: k in favs && favs[k] == Favorite(movieId, userId)
    ensures r.Err? ==> r.error == BadRequest
    ensures r.Ok? ==> r.value.1 !in favs && r.value.0 == favs[r.value.1 := Favorite(movieId, userId)]
  {
    if exists k :: k in favs && favs[k] == Favorite(movieId, userId) then Err(BadRequest)
    else
      var id := FreshId(favs.Keys);
      Ok((favs[id := Favorite(movieId, userId)], id))
  }

  /** `getAllFavorites`: the ids of the user's favourites; NotFound when
      there are none. */
  function GetAllFavorites(favs: map<int, Favorite>, userId: int): (r: Result<set<int>>)
    ensures r.Err? <==> forall k :: k in favs ==> favs[k].userId != userId
    ensures r.Err? ==> r.error == NotFound
    ensures r.Ok? ==> r.value != {} && forall k :: k in r.value <==> k in favs && favs[k].userId == userId
  {
    var ids := set k | k in favs && favs[k].userId == userId;
    assert forall k :: k in ids <==> k in favs && favs[k].userId == userId;
    NoElementMeansEmpty(ids);
    if ids == {} then Err(NotFound) else Ok(ids)
  }

  /** `getOneFavorite`: the row, or NotFound. */
  function GetOneFavorite(favs: map<int, Favorite>, id: int): (r: Result<Favorite>)
    ensures r.Err? <==> id !in favs
    ensures r.Err? ==> r.error == NotFound
    ensures r.Ok? ==> id in favs && r.value == favs[id]
  {
    if id !in favs then Err(NotFound) else Ok(favs[id])
  }

  /** `deleteFavorites`: NotFound for a missing id; otherwise that row is
      removed and returned. */
  function DeleteFavorite(favs: map<int, Favorite>, id: int): (r: Result<(map<int, Favorite>, Favorite)>)
    ensures r.Err? <==> id !in favs
    ensures r.Err? ==> r.error == NotFound
    ensures r.Ok? ==> id in favs && r.value == (favs - {id}, favs[id])
  {
    if id !in favs then Err(NotFound) else Ok((favs - {id}, favs[id]))
  }

  /** A created favourite keeps one row per pair, is listed for its user
      and can be read back; deleting it restores the table and the same
      create then succeeds again. */
  lemma FavoriteRoundTrip(favs: map<int, Favorite>, userId: int, movieId: int)
    requires OnePerPair(favs)
    requires CreateFavorite(favs, userId, movieId).Ok?
    ensures var (next, id) := CreateFavorite(favs, userId, movieId).value;
      && OnePerPair(next)
      && CreateFavorite(next, userId, movieId).Err?
      && GetAllFavorites(next, userId).Ok? && id in GetAllFavorites(next, userId).value
      && GetOneFavorite(next, id) == Ok(Favorite(movieId, userId))
      && DeleteFavorite(next, id) == Ok((favs, Favorite(movieId, userId)))
  {
    var (next, id) := CreateFavorite(favs, userId, movieId).value;
    assert next[id] == Favorite(movieId, userId);
    assert next - {id} == favs;
  }
}
