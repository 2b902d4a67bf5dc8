/** `MoviesService`, apart from the premium gate: poster URLs, resolving the
    category names of a request to category ids, and creating, updating and
    deleting movies together with their category links. */
module Movies {
  import opened Outcomes
  import opened Ids
  import opened Text
  import opened Slug
  import opened Schema
  import opened Normalize
  import opened Categories

  /** Where a stored poster file name is served from. */
  const PosterPrefix: string := "http://localhost:3000/poster_url/"

  predicate IsAbsoluteUrl(v: string) {
    StartsWith(v, "http://") || StartsWith(v, "https://")
  }

  /** `toPosterUrl`: absolute URLs are kept, bare file names are placed under
      the poster route. Either way the result is an absolute URL. */
  function ToPosterUrl(value: string): (r: string)
    ensures IsAbsoluteUrl(r)
    ensures IsAbsoluteUrl(value) ==> r == value
    ensures !IsAbsoluteUrl(value) ==> r == PosterPrefix + value
  {
    if IsAbsoluteUrl(value) then value
    else
      assert (PosterPrefix + value)[..7] == "http://";
      PosterPrefix + value
  }

  /** Mapping a poster twice is mapping it once: the responses can pass an
      already mapped URL through again without harm. */
  lemma ToPosterUrlIdempotent(value: string)
    ensures ToPosterUrl(ToPosterUrl(value)) == ToPosterUrl(value)
  {
  }

  // ---------------------------------------------------------------------
  // getOrCreateCategoryIds

  /** The slugs of a normalised category list. */
  function SlugsOf(norm: seq<(string, string)>): set<string> {
    set e | e in norm :: e.0
  }

  /** Some category, of either status, holds slug `s`. */
  predicate Held(cats: map<int, Category>, s: string) {
    exists k :: k in cats && cats[k].slug == s
  }

  /** The row `createMany` inserts for a normalised entry (slug, name): the
      name, the slug, the description "<name> category", ACTIVE by default. */
  function NewCategory(e: (string, string)): Category {
    Category(e.1, e.0, e.1 + " category", true)
  }

  /** `updateMany({ where: { slug: { in } }, data: { status: ACTIVE } })`. */
  function Reactivate(cats: map<int, Category>, slugs: set<string>): (r: map<int, Category>)
    ensures r.Keys == cats.Keys
    ensures forall k :: k in cats ==> r[k] == cats[k].(active := cats[k].active || cats[k].slug in slugs)
  {
    map k | k in cats :: cats[k].(active := cats[k].active || cats[k].slug in slugs)
  }

  /** `createMany` of the entries of `es` whose slug is not in `held` (the
      slugs found before inserting), in order, each under a fresh id. Rows
      already present are kept. */
  function AddMissing(cats: map<int, Category>, es: seq<(string, string)>, held: set<string>)
    : (r: map<int, Category>)
    ensures forall k :: k in cats ==> k in r && r[k] == cats[k]
    decreases |es|
  {
    if |es| == 0 then cats
    else
      var next := if es[0].0 in held then cats else cats[FreshId(cats.Keys) := NewCategory(es[0])];
      AddMissing(next, es[1..], held)
  }

  /** Every row `AddMissing` adds is the `NewCategory` of an entry whose slug
      was not held. */
  lemma {:induction false} AddMissingSound(cats: map<int, Category>, es: seq<(string, string)>, held: set<string>)
    ensures forall k :: k in AddMissing(cats, es, held) && k !in cats ==>
      exists i :: 0 <= i < |es| && es[i].0 !in held && AddMissing(cats, es, held)[k] == NewCategory(es[i])
    decreases |es|
  {
    if |es| > 0 {
      var next := if es[0].0 in held then cats else cats[FreshId(cats.Keys) := NewCategory(es[0])];
      AddMissingSound(next, es[1..], held);
      var r := AddMissing(cats, es, held);
      forall k | k in r && k !in cats
        ensures exists i :: 0 <= i < |es| && es[i].0 !in held && r[k] == NewCategory(es[i])
      {
        if k in next {
          assert r[k] == next[k];
        } else {
          var i :| 0 <= i < |es[1..]| && es[1..][i].0 !in held && r[k] == NewCategory(es[1..][i]);
          assert es[1..][i] == es[i + 1];
        }
      }
    }
  }

  /** Every entry whose slug was not held gets a new row. */
  lemma {:induction false} AddMissingComplete(cats: map<int, Category>, es: seq<(string, string)>, held: set<string>)
    ensures forall i :: 0 <= i < |es| && es[i].0 !in held ==>
      exists k :: k in AddMissing(cats, es, held) && k !in cats && AddMissing(cats, es, held)[k] == NewCategory(es[i])
    decreases |es|
  {
    if |es| > 0 {
      var next := if es[0].0 in held then cats else cats[FreshId(cats.Keys) := NewCategory(es[0])];
      AddMissingComplete(next, es[1..], held);
      var r := AddMissing(cats, es, held);
      forall i | 0 <= i < |es| && es[i].0 !in held
        ensures exists k :: k in r && k !in cats && r[k] == NewCategory(es[i])
      {
        if i == 0 {
          var k := FreshId(cats.Keys);
          assert k in next && r[k] == next[k];
        } else {
          assert es[1..][i - 1] == es[i];
          var k :| k in r && k !in next && r[k] == NewCategory(es[1..][i - 1]);
        }
      }
    }
  }

  /** The ids of every category whose slug is among `slugs`. */
  function WithSlugIn(cats: map<int, Category>, slugs: set<string>): set<int> {
    set k | k in cats && cats[k].slug in slugs
  }

  /** The slugs held before `createMany` runs. */
  function HeldSlugs(cats: map<int, Category>): set<string> {
    set k | k in cats :: cats[k].slug
  }

  /** The body of `getOrCreateCategoryIds` once the list is normalised:
      reactivate the held slugs, create the missing ones, and return the ids
      of every category with one of the slugs. */
  function Resolve(cats: map<int, Category>, norm: seq<(string, string)>): (r: (map<int, Category>, set<int>))
    ensures cats.Keys <= r.0.Keys
    ensures forall k :: k in cats ==>
      r.0[k] == cats[k].(active := cats[k].active || cats[k].slug in SlugsOf(norm))
    ensures r.1 == WithSlugIn(r.0, SlugsOf(norm))
  {
    var all := AddMissing(Reactivate(cats, SlugsOf(norm)), norm, HeldSlugs(cats));
    (all, WithSlugIn(all, SlugsOf(norm)))
  }

  /** The rows `Resolve` adds are new categories for slugs nobody held. */
  lemma ResolveAddsOnlyMissing(cats: map<int, Category>, norm: seq<(string, string)>)
    ensures var all := Resolve(cats, norm).0;
      forall k :: k in all && k !in cats ==>
        exists e :: e in norm && !Held(cats, e.0) && all[k] == NewCategory(e)
  {
    var reactivated := Reactivate(cats, SlugsOf(norm));
    var all := Resolve(cats, norm).0;
    AddMissingSound(reactivated, norm, HeldSlugs(cats));
    forall k | k in all && k !in cats
      ensures exists e :: e in norm && !Held(cats, e.0) && all[k] == NewCategory(e)
    {
      var i :| 0 <= i < |norm| && norm[i].0 !in HeldSlugs(cats) && all[k] == NewCategory(norm[i]);
      assert norm[i] in norm;
      assert forall j :: j in cats ==> cats[j].slug in HeldSlugs(cats);
    }
  }

  /** Every id `Resolve` returns is an ACTIVE category afterwards. */
  lemma ResolveReturnsActive(cats: map<int, Category>, norm: seq<(string, string)>)
    ensures var r := Resolve(cats, norm);
      forall k :: k in r.1 ==> k in r.0 && r.0[k].active
  {
    var reactivated := Reactivate(cats, SlugsOf(norm));
    var r := Resolve(cats, norm);
    AddMissingSound(reactivated, norm, HeldSlugs(cats));
    forall k | k in r.1
      ensures r.0[k].active
    {
      if k !in reactivated {
        var i :| 0 <= i < |norm| && norm[i].0 !in HeldSlugs(cats) && r.0[k] == NewCategory(norm[i]);
      }
    }
  }

  /** Every requested slug is held afterwards by a category whose id is
      returned. */
  lemma ResolveCoversSlugs(cats: map<int, Category>, norm: seq<(string, string)>)
    ensures var r := Resolve(cats, norm);
      forall s :: s in SlugsOf(norm) ==> exists k :: k in r.1 && r.0[k].slug == s
  {
    var reactivated := Reactivate(cats, SlugsOf(norm));
    var r := Resolve(cats, norm);
    AddMissingComplete(reactivated, norm, HeldSlugs(cats));
    forall s | s in SlugsOf(norm)
      ensures exists k :: k in r.1 && r.0[k].slug == s
    {
      var i :| 0 <= i < |norm| && norm[i].0 == s;
      if s in HeldSlugs(cats) {
        var j :| j in cats && cats[j].slug == s;
        assert j in r.1;
      } else {
        var k :| k in r.0 && k !in reactivated && r.0[k] == NewCategory(norm[i]);
        assert k in r.1;
      }
    }
  }

  /** `getOrCreateCategoryIds`: NotFound when no category name survives
      normalisation; otherwise every normalised slug ends up held by an
      ACTIVE category, and the ids of those categories are returned. */
  function GetOrCreateCategoryIds(cats: map<int, Category>, items: seq<string>)
    : (r: Result<(map<int, Category>, set<int>)>)
    ensures r.Err? <==> Normalized(items) == []
    ensures r.Err? ==> r.error == NotFound
    ensures r.Ok? ==> r.value == Resolve(cats, Normalized(items))
  {
    var norm := Normalized(items);
    if norm == [] then Err(NotFound) else Ok(Resolve(cats, norm))
  }

  /** `Resolve` keeps category slugs unique: a slug is only created when no
      category held it, and a normalised list names each slug once. */
  lemma ResolveKeepsSlugsUnique(cats: map<int, Category>, norm: seq<(string, string)>)
    requires UniqueSlugs(cats)
    requires DistinctKeys(norm)
    ensures UniqueSlugs(Resolve(cats, norm).0)
  {
    var reactivated := Reactivate(cats, SlugsOf(norm));
    assert forall k :: k in cats ==> reactivated[k].slug == cats[k].slug;
    assert forall k :: k in cats ==> cats[k].slug in HeldSlugs(cats);
    AddMissingKeepsUnique(reactivated, norm, HeldSlugs(cats));
  }

  lemma {:induction false} AddMissingKeepsUnique(cats: map<int, Category>, es: seq<(string, string)>, held: set<string>)
    requires UniqueSlugs(cats)
    requires forall a, b :: 0 <= a < b < |es| ==> es[a].0 != es[b].0
    requires forall k, i :: k in cats && 0 <= i < |es| && es[i].0 !in held ==> cats[k].slug != es[i].0
    ensures UniqueSlugs(AddMissing(cats, es, held))
    decreases |es|
  {
    if |es| > 0 {
      var next := if es[0].0 in held then cats else cats[FreshId(cats.Keys) := NewCategory(es[0])];
      var rest := es[1..];
      assert forall i :: 0 <= i < |rest| ==> rest[i] == es[i + 1];
      forall k, i | k in next && 0 <= i < |rest| && rest[i].0 !in held
        ensures next[k].slug != rest[i].0
      {
        if k !in cats {
          assert next[k].slug == es[0].0;
        }
      }
      AddMissingKeepsUnique(next, rest, held);
    }
  }

  // ---------------------------------------------------------------------
  // The catalog and its table constraints

  /** No two movies share a slug (the column's unique index). */
  ghost predicate UniqueMovieSlugs(movies: map<int, Movie>) {
    forall a, b :: a in movies && b in movies && movies[a].slug == movies[b].slug ==> a == b
  }

  /** No (movie, category) pair is linked twice. */
  ghost predicate UniquePairs(links: map<int, Link>) {
    forall a, b :: a in links && b in links && links[a] == links[b] ==> a == b
  }

  /** Every link points at an existing movie and an existing category. */
  ghost predicate LinksResolve(c: Catalog) {
    forall k :: k in c.links ==> c.links[k].movieId in c.movies && c.links[k].categoryId in c.cats
  }

  /** The constraints the catalog tables keep. */
  ghost predicate Valid(c: Catalog) {
    && UniqueMovieSlugs(c.movies)
    && UniqueSlugs(c.cats)
    && UniquePairs(c.links)
    && LinksResolve(c)
  }

  /** `movies_categories.createMany` of one link from movie `m` to each
      category of `ids`, under fresh ids. Existing rows are kept; the new rows
      are exactly one link per category of `ids`. */
  function AddLinks(links: map<int, Link>, m: int, ids: set<int>): (r: map<int, Link>)
    ensures forall k :: k in links ==> k in r && r[k] == links[k]
    ensures forall k :: k in r && k !in links ==> r[k].movieId == m && r[k].categoryId in ids
    ensures forall cid :: cid in ids ==> exists k :: k in r && k !in links && r[k] == Link(m, cid)
    ensures forall a, b :: a in r && b in r && a !in links && b !in links && r[a] == r[b] ==> a == b
    decreases ids
  {
    if ids == {} then links
    else
      var cid := Min(ids);
      var k := FreshId(links.Keys);
      var r := AddLinks(links[k := Link(m, cid)], m, ids - {cid});
      assert forall x :: x in ids ==> x == cid || x in ids - {cid};
      r
  }

  /** `movies_categories.deleteMany({ where: { movie_id: m } })`. */
  function Unlink(links: map<int, Link>, m: int): (r: map<int, Link>)
    ensures forall k :: k in r <==> k in links && links[k].movieId != m
    ensures forall k :: k in r ==> r[k] == links[k]
  {
    map k | k in links && links[k].movieId != m :: links[k]
  }

  // ---------------------------------------------------------------------
  // createMovie, updateMovie, deleteMovie

  /** The fields of a create request (`MoviesCreateDto`). */
  datatype MovieInput = MovieInput(
    title: string,
    slug: string,
    description: string,
    releaseYear: int,
    durationMinutes: int,
    rating: real,
    subscriptionType: MovieType,
    categories: Option<seq<string>>)

  /** A movie other than `except` has slug `slug`. */
  predicate SlugTaken(movies: map<int, Movie>, slug: string, except: Option<int>) {
    exists k :: k in movies && movies[k].slug == slug && Some(k) != except
  }

  /** A file name counts as sent when it is present and not empty. */
  predicate Sent(filename: Option<string>) {
    filename.Some? && filename.value != ""
  }

  /** The category step shared by create and update: with no category list
      the tables are left alone; otherwise the list is resolved (NotFound
      when it normalises to nothing, which rolls the whole transaction back)
      and movie `m` is linked to every resolved category. */
  function LinkCategories(cats: map<int, Category>, links: map<int, Link>, m: int,
                          categories: Option<seq<string>>)
    : (r: Result<(map<int, Category>, map<int, Link>)>)
    ensures r.Err? <==> categories.Some? && Normalized(categories.value) == []
    ensures r.Err? ==> r.error == NotFound
    ensures r.Ok? && categories.None? ==> r.value == (cats, links)
    ensures r.Ok? && categories.Some? ==>
      var (cats', ids) := Resolve(cats, Normalized(categories.value));
      r.value == (cats', AddLinks(links, m, ids))
  {
    match categories
    case None => Ok((cats, links))
    case Some(items) =>
      var (cats', ids) :- GetOrCreateCategoryIds(cats, items);
      Ok((cats', AddLinks(links, m, ids)))
  }

  /** `createMovie`. The slug is generated from the requested one
      (BadRequest when empty), a poster file is required (BadRequest), and
      the slug must be free (Conflict). The movie then gets the next id,
      trimmed title and description, the poster file name and no views; the
      category list, when sent, is resolved and linked, and a list that
      normalises to nothing fails the whole request with NotFound. */
  function CreateMovie(c: Catalog, input: MovieInput, filename: Option<string>, ownerId: int)
    : (r: Result<(Catalog, int)>)
    ensures r.Ok? <==>
      && GenerateSlug(input.slug) != "" && Sent(filename) && !SlugTaken(c.movies, GenerateSlug(input.slug), None)
      && !(input.categories.Some? && Normalized(input.categories.value) == [])
    ensures r == Err(BadRequest) <==> GenerateSlug(input.slug) == "" || !Sent(filename)
    ensures r == Err(Conflict) <==>
      GenerateSlug(input.slug) != "" && Sent(filename) && SlugTaken(c.movies, GenerateSlug(input.slug), None)
    ensures r == Err(NotFound) <==>
      && GenerateSlug(input.slug) != "" && Sent(filename) && !SlugTaken(c.movies, GenerateSlug(input.slug), None)
      && input.categories.Some? && Normalized(input.categories.value) == []
    ensures r.Ok? ==>
      var (c', id) := r.value;
      && id !in c.movies
      && c'.movies == c.movies[id := Movie(Trim(input.title), GenerateSlug(input.slug), Trim(input.description),
           input.releaseYear, input.durationMinutes, input.rating, input.subscriptionType, filename.value, 0, ownerId)]
      && LinkCategories(c.cats, c.links, id, input.categories) == Ok((c'.cats, c'.links))
  {
    var slug := GenerateSlug(input.slug);
    if slug == "" then Err(BadRequest)
    else if !Sent(filename) then Err(BadRequest)
    else if SlugTaken(c.movies, slug, None) then Err(Conflict)
    else
      var id := FreshId(c.movies.Keys);
      var movie := Movie(Trim(input.title), slug, Trim(input.description), input.releaseYear,
                         input.durationMinutes, input.rating, input.subscriptionType, filename.value, 0, ownerId);
      var (cats', links') :- LinkCategories(c.cats, c.links, id, input.categories);
      Ok((Catalog(c.movies[id := movie], cats', links'), id))
  }

  /** Linking a movie with no links yet never duplicates a pair. */
  lemma AddLinksKeepsPairsUnique(links: map<int, Link>, m: int, ids: set<int>)
    requires UniquePairs(links)
    requires forall k :: k in links ==> links[k].movieId != m
    ensures UniquePairs(AddLinks(links, m, ids))
  {
    var r := AddLinks(links, m, ids);
    assert forall k :: k in r && k !in links ==> r[k].movieId == m;
    assert forall k :: k in links ==> r[k].movieId != m;
  }

  /** Resolving categories and linking movie `m` to them keeps the category
      and link constraints, provided `m` exists and has no links yet. */
  lemma ResolveAndLinkKeepsValid(c: Catalog, m: int, norm: seq<(string, string)>)
    requires Valid(c) && m in c.movies
    requires forall k :: k in c.links ==> c.links[k].movieId != m
    requires DistinctKeys(norm)
    ensures var (cats', ids) := Resolve(c.cats, norm);
      Valid(Catalog(c.movies, cats', AddLinks(c.links, m, ids)))
  {
    ResolveKeepsSlugsUnique(c.cats, norm);
    var (cats', ids) := Resolve(c.cats, norm);
    AddLinksKeepsPairsUnique(c.links, m, ids);
  }

  /** The category step keeps the category and link constraints, provided
      movie `m` exists and has no links yet. */
  lemma LinkCategoriesKeepsValid(c: Catalog, m: int, categories: Option<seq<string>>)
    requires Valid(c) && m in c.movies
    requires forall k :: k in c.links ==> c.links[k].movieId != m
    requires LinkCategories(c.cats, c.links, m, categories).Ok?
    ensures var (cats', links') := LinkCategories(c.cats, c.links, m, categories).value;
      Valid(Catalog(c.movies, cats', links'))
  {
    if categories.Some? {
      NormalizedDistinct(categories.value);
      ResolveAndLinkKeepsValid(c, m, Normalized(categories.value));
    }
  }

  /** A successful `createMovie` keeps every catalog constraint. */
  lemma CreateMovieKeepsValid(c: Catalog, input: MovieInput, filename: Option<string>, ownerId: int)
    requires Valid(c)
    requires CreateMovie(c, input, filename, ownerId).Ok?
    ensures Valid(CreateMovie(c, input, filename, ownerId).value.0)
  {
    var (c', id) := CreateMovie(c, input, filename, ownerId).value;
    var mid := c.(movies := c'.movies);
    InsertMovieKeepsValid(c, id, c'.movies[id]);
    LinkCategoriesKeepsValid(mid, id, input.categories);
    assert c' == Catalog(mid.movies, c'.cats, c'.links);
  }

  /** Adding a movie under a new id with a slug no movie holds keeps the
      catalog constraints, and no link points at the new movie yet. */
  lemma InsertMovieKeepsValid(c: Catalog, id: int, m: Movie)
    requires Valid(c) && id !in c.movies && !SlugTaken(c.movies, m.slug, None)
    ensures Valid(c.(movies := c.movies[id := m]))
    ensures forall k :: k in c.links ==> c.links[k].movieId != id
  {
  }

  /** The fields an update request may carry (`UpdateMovieDto`); absent
      fields are `None`. */
  datatype MoviePatch = MoviePatch(
    title: Option<string>,
    description: Option<string>,
    releaseYear: Option<int>,
    durationMinutes: Option<int>,
    subscriptionType: Option<MovieType>,
    rating: Option<real>,
    slug: Option<string>,
    categories: Option<seq<string>>)

  /** Nothing to write: no column field, no poster file, no category list. */
  predicate NothingToUpdate(p: MoviePatch, filename: Option<string>) {
    && p.title.None? && p.description.None? && p.releaseYear.None?
    && p.durationMinutes.None? && p.subscriptionType.None? && p.rating.None?
    && p.slug.None? && !Sent(filename) && p.categories.None?
  }

  /** The requested slug, if any, generates to something non-empty that no
      other movie holds. */
  predicate SlugAccepted(movies: map<int, Movie>, id: int, p: MoviePatch) {
    p.slug.None? || (GenerateSlug(p.slug.value) != "" && !SlugTaken(movies, GenerateSlug(p.slug.value), Some(id)))
  }

  /** `m` with the sent fields written over it: title and description
      trimmed, the slug generated, the poster replaced by a sent file name.
      The view count and the owner are never touched. */
  function Patched(m: Movie, p: MoviePatch, filename: Option<string>): (r: Movie)
    ensures r.viewCount == m.viewCount && r.ownerId == m.ownerId
    ensures NothingToUpdate(p, filename) ==> r == m
  {
    Movie(
      if p.title.Some? then Trim(p.title.value) else m.title,
      if p.slug.Some? then GenerateSlug(p.slug.value) else m.slug,
      if p.description.Some? then Trim(p.description.value) else m.description,
      p.releaseYear.GetOr(m.releaseYear),
      p.durationMinutes.GetOr(m.durationMinutes),
      p.rating.GetOr(m.rating),
      p.subscriptionType.GetOr(m.subscriptionType),
      if Sent(filename) then filename.value else m.posterUrl,
      m.viewCount,
      m.ownerId)
  }

  /** `updateMovie`. NotFound for a missing movie; a sent slug that
      generates to nothing is BadRequest and one held by another movie is
      Conflict (keeping its own slug is fine); a request with nothing to
      write is BadRequest. Otherwise the movie is patched and, when a
      category list is sent, its links are replaced wholesale by links to
      the resolved categories; a list that normalises to nothing fails the
      whole request with NotFound. No other movie changes. */
  function UpdateMovie(c: Catalog, id: int, p: MoviePatch, filename: Option<string>)
    : (r: Result<(Catalog, Movie)>)
    ensures r.Ok? <==>
      && id in c.movies && SlugAccepted(c.movies, id, p) && !NothingToUpdate(p, filename)
      && !(p.categories.Some? && Normalized(p.categories.value) == [])
    ensures r == Err(NotFound) <==>
      id !in c.movies ||
      (SlugAccepted(c.movies, id, p) && !NothingToUpdate(p, filename)
       && p.categories.Some? && Normalized(p.categories.value) == [])
    ensures r == Err(BadRequest) <==>
      id in c.movies &&
      ((p.slug.Some? && GenerateSlug(p.slug.value) == "") ||
       (SlugAccepted(c.movies, id, p) && NothingToUpdate(p, filename)))
    ensures r == Err(Conflict) <==>
      id in c.movies && p.slug.Some? && GenerateSlug(p.slug.value) != ""
      && SlugTaken(c.movies, GenerateSlug(p.slug.value), Some(id))
    ensures r.Ok? ==>
      var (c', updated) := r.value;
      && updated == Patched(c.movies[id], p, filename)
      && c'.movies == c.movies[id := updated]
      && (p.categories.None? ==> c'.cats == c.cats && c'.links == c.links)
      && (p.categories.Some? ==>
            LinkCategories(c.cats, Unlink(c.links, id), id, p.categories) == Ok((c'.cats, c'.links)))
  {
    if id !in c.movies then Err(NotFound)
    else if p.slug.Some? && GenerateSlug(p.slug.value) == "" then Err(BadRequest)
    else if p.slug.Some? && SlugTaken(c.movies, GenerateSlug(p.slug.value), Some(id)) then Err(Conflict)
    else if NothingToUpdate(p, filename) then Err(BadRequest)
    else
      var updated := Patched(c.movies[id], p, filename);
      var links := if p.categories.Some? then Unlink(c.links, id) else c.links;
      var (cats', links') :- LinkCategories(c.cats, links, id, p.categories);
      Ok((Catalog(c.movies[id := updated], cats', links'), updated))
  }

  /** A successful `updateMovie` keeps every catalog constraint. */
  lemma UpdateMovieKeepsValid(c: Catalog, id: int, p: MoviePatch, filename: Option<string>)
    requires Valid(c)
    requires UpdateMovie(c, id, p, filename).Ok?
    ensures Valid(UpdateMovie(c, id, p, filename).value.0)
  {
    var (c', updated) := UpdateMovie(c, id, p, filename).value;
    var movies' := c.movies[id := updated];
    assert forall k :: k in c.movies && k != id ==> c.movies[k].slug != updated.slug;
    if p.categories.Some? {
      var mid := Catalog(movies', c.cats, Unlink(c.links, id));
      assert Valid(mid);
      LinkCategoriesKeepsValid(mid, id, p.categories);
    }
  }

  /** With a category list, `updateMovie` replaces the movie's links
      wholesale: afterwards the movie is linked to exactly the resolved
      categories, and every other movie's links are as they were. */
  lemma UpdateMovieReplacesLinks(c: Catalog, id: int, p: MoviePatch, filename: Option<string>)
    requires UpdateMovie(c, id, p, filename).Ok? && p.categories.Some?
    ensures var c' := UpdateMovie(c, id, p, filename).value.0;
      var ids := Resolve(c.cats, Normalized(p.categories.value)).1;
      && (forall k :: k in c.links && c.links[k].movieId != id ==> k in c'.links && c'.links[k] == c.links[k])
      && (forall k :: k in c'.links && c'.links[k].movieId != id ==> k in c.links)
      && (forall k :: k in c'.links && c'.links[k].movieId == id ==> c'.links[k].categoryId in ids)
      && (forall cid :: cid in ids ==> exists k :: k in c'.links && c'.links[k] == Link(id, cid))
  {
    var c' := UpdateMovie(c, id, p, filename).value.0;
    var ids := Resolve(c.cats, Normalized(p.categories.value)).1;
    var kept := Unlink(c.links, id);
    assert c'.links == AddLinks(kept, id, ids);
    forall k | k in c'.links && c'.links[k].movieId == id
      ensures c'.links[k].categoryId in ids
    {
      assert k !in kept;
    }
  }

  /** `deleteMovie`: NotFound for a missing movie; otherwise the row goes,
      with its category links, and is returned. */
  function DeleteMovie(c: Catalog, id: int): (r: Result<(Catalog, Movie)>)
    ensures r.Err? <==> id !in c.movies
    ensures r.Err? ==> r.error == NotFound
    ensures r.Ok? ==>
      && r.value.1 == c.movies[id]
      && r.value.0.movies.Keys == c.movies.Keys - {id}
      && (forall k :: k in r.value.0.movies ==> r.value.0.movies[k] == c.movies[k])
      && r.value.0.cats == c.cats
      && r.value.0.links == Unlink(c.links, id)
  {
    if id !in c.movies then Err(NotFound)
    else Ok((Catalog(c.movies - {id}, c.cats, Unlink(c.links, id)), c.movies[id]))
  }

  /** A successful `deleteMovie` keeps every catalog constraint. */
  lemma DeleteMovieKeepsValid(c: Catalog, id: int)
    requires Valid(c)
    requires DeleteMovie(c, id).Ok?
    ensures Valid(DeleteMovie(c, id).value.0)
  {
  }
}
