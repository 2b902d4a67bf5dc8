/** `MoviesCategoriesService`: adding, changing and removing single links
    between a movie and a category. A (movie, category) pair is linked at
    most once, which each operation keeps. */
module MovieLinks {
  import opened Outcomes
  import opened Ids
  import opened Schema
  import opened Categories
  import opened Movies

  /** An ACTIVE category with id `id` exists (`findFirst` with
      `status: ACTIVE`). */
  predicate ActiveCategory(cats: map<int, Category>, id: int) {
    id in cats && cats[id].active
  }

  /** Some link other than `except` joins `movieId` and `categoryId`. */
  predicate PairTaken(links: map<int, Link>, movieId: int, categoryId: int, except: Option<int>) {
    exists k :: k in links && links[k] == Link(movieId, categoryId) && Some(k) != except
  }

  /** `create`: NotFound for a missing movie, then for a category that is
      missing or INACTIVE; Conflict for a pair already linked; otherwise one
      new link under the next id. */
  function CreateLink(c: Catalog, movieId: int, categoryId: int): (r: Result<(Catalog, int)>)
    ensures r.Ok? <==>
      movieId in c.movies && ActiveCategory(c.cats, categoryId) && !PairTaken(c.links, movieId, categoryId, None)
    ensures r == Err(NotFound) <==> movieId !in c.movies || !ActiveCategory(c.cats, categoryId)
    ensures r == Err(Conflict) <==>
      movieId in c.movies && ActiveCategory(c.cats, categoryId) && PairTaken(c.links, movieId, categoryId, None)
    ensures r.Ok? ==>
      var (c', id) := r.value;
      && id !in c.links
      && c' == c.(links := c.links[id := Link(movieId, categoryId)])
  {
    if movieId !in c.movies then Err(NotFound)
    else if !ActiveCategory(c.cats, categoryId) then Err(NotFound)
    else if PairTaken(c.links, movieId, categoryId, None) then Err(Conflict)
    else
      var id := FreshId(c.links.Keys);
      Ok((c.(links := c.links[id := Link(movieId, categoryId)]), id))
  }

  /** A successful `create` keeps every catalog constraint. */
  lemma CreateLinkKeepsValid(c: Catalog, movieId: int, categoryId: int)
    requires Valid(c)
    requires CreateLink(c, movieId, categoryId).Ok?
    ensures Valid(CreateLink(c, movieId, categoryId).value.0)
  {
  }

  /** `update`: NotFound for a missing link; BadRequest when neither field
      is sent; a sent movie must exist and a sent category must be ACTIVE
      (NotFound); the resulting pair must not belong to another link
      (Conflict). An omitted field keeps its current value. */
  function UpdateLink(c: Catalog, id: int, movieId: Option<int>, categoryId: Option<int>)
    : (r: Result<(Catalog, Link)>)
    ensures r.Ok? <==>
      && id in c.links && !(movieId.None? && categoryId.None?)
      && (movieId.Some? ==> movieId.value in c.movies)
      && (categoryId.Some? ==> ActiveCategory(c.cats, categoryId.value))
      && !PairTaken(c.links, movieId.GetOr(c.links[id].movieId), categoryId.GetOr(c.links[id].categoryId), Some(id))
    ensures r == Err(BadRequest) <==> id in c.links && movieId.None? && categoryId.None?
    ensures r == Err(NotFound) <==>
      || id !in c.links
      || (!(movieId.None? && categoryId.None?)
          && ((movieId.Some? && movieId.value !in c.movies)
              || (categoryId.Some? && !ActiveCategory(c.cats, categoryId.value))))
    ensures r == Err(Conflict) <==>
      && id in c.links && !(movieId.None? && categoryId.None?)
      && (movieId.Some? ==> movieId.value in c.movies)
      && (categoryId.Some? ==> ActiveCategory(c.cats, categoryId.value))
      && PairTaken(c.links, movieId.GetOr(c.links[id].movieId), categoryId.GetOr(c.links[id].categoryId), Some(id))
    ensures r.Ok? ==>
      && id in c.links
      && r.value.1 == Link(movieId.GetOr(c.links[id].movieId), categoryId.GetOr(c.links[id].categoryId))
      && !PairTaken(c.links, r.value.1.movieId, r.value.1.categoryId, Some(id))
      && r.value.0 == c.(links := c.links[id := r.value.1])
  {
    if id !in c.links then Err(NotFound)
    else if movieId.None? && categoryId.None? then Err(BadRequest)
    else
      var next := Link(movieId.GetOr(c.links[id].movieId), categoryId.GetOr(c.links[id].categoryId));
      if movieId.Some? && movieId.value !in c.movies then Err(NotFound)
      else if categoryId.Some? && !ActiveCategory(c.cats, categoryId.value) then Err(NotFound)
      else if PairTaken(c.links, next.movieId, next.categoryId, Some(id)) then Err(Conflict)
      else Ok((c.(links := c.links[id := next]), next))
  }

  /** A successful `update` keeps every catalog constraint: the link keeps
      pointing at existing rows and its pair stays unique. */
  lemma UpdateLinkKeepsValid(c: Catalog, id: int, movieId: Option<int>, categoryId: Option<int>)
    requires Valid(c)
    requires UpdateLink(c, id, movieId, categoryId).Ok?
    ensures Valid(UpdateLink(c, id, movieId, categoryId).value.0)
  {
    var (c', next) := UpdateLink(c, id, movieId, categoryId).value;
    assert forall k :: k in c.links && k != id ==> c.links[k] != next;
  }

  /** `delete`: NotFound for a missing link; otherwise exactly that link is
      removed and returned. */
  function DeleteLink(c: Catalog, id: int): (r: Result<(Catalog, Link)>)
    ensures r.Err? <==> id !in c.links
    ensures r.Err? ==> r.error == NotFound
    ensures r.Ok? ==>
      && r.value.1 == c.links[id]
      && r.value.0.links.Keys == c.links.Keys - {id}
      && (forall k :: k in r.value.0.links ==> r.value.0.links[k] == c.links[k])
      && r.value.0.movies == c.movies && r.value.0.cats == c.cats
  {
    if id !in c.links then Err(NotFound)
    else Ok((c.(links := c.links - {id}), c.links[id]))
  }

  /** Creating a link and deleting it again restores the catalog. */
  lemma CreateThenDeleteLink(c: Catalog, movieId: int, categoryId: int)
    requires CreateLink(c, movieId, categoryId).Ok?
    ensures var (c', id) := CreateLink(c, movieId, categoryId).value;
      DeleteLink(c', id) == Ok((c, Link(movieId, categoryId)))
  {
    var (c', id) := CreateLink(c, movieId, categoryId).value;
    assert c'.links - {id} == c.links;
  }
}
