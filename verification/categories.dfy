/** `CategoriesService`: slug validation, creation with reactivation of a
    soft-deleted category, update and soft delete. The `slug` column is
    unique, which the operations keep. */
module Categories {
  import opened Outcomes
  import opened Ids
  import opened Text
  import opened Slug
  import opened Schema

  /** No two categories share a slug (the column's unique index). */
  ghost predicate UniqueSlugs(cats: map<int, Category>) {
    forall a, b :: a in cats && b in cats && cats[a].slug == cats[b].slug ==> a == b
  }

  /** `validateSlug(generateSlug(text))`: the slug of `text`, BadRequest
      when nothing of it survives. */
  function CategorySlug(text: string): (r: Result<string>)
    ensures r.Err? <==> GenerateSlug(text) == ""
    ensures r.Err? ==> r.error == BadRequest
    ensures r.Ok? ==> r.value != "" && IsSlug(r.value)
  {
    var slug := GenerateSlug(text);
    if slug == "" then Err(BadRequest) else Ok(slug)
  }

  /** `findUnique({ where: { slug } })`. */
  function BySlug(cats: map<int, Category>, slug: string): (r: Option<int>)
    ensures r.None? <==> forall k :: k in cats ==> cats[k].slug != slug
    ensures r.Some? ==> r.value in cats && cats[r.value].slug == slug
  {
    var hits := set k | k in cats && cats[k].slug == slug;
    assert forall k :: k in cats && cats[k].slug == slug ==> k in hits;
    if hits == {} then None else Some(Min(hits))
  }

  /** Some ACTIVE category other than `except` is called `name`. */
  predicate ActiveNameTaken(cats: map<int, Category>, name: string, except: Option<int>) {
    exists k :: k in cats && cats[k].active && cats[k].name == name && Some(k) != except
  }

  /** `createCategory`. The slug comes from `slug` when sent, else from the
      trimmed name. A slug held by an ACTIVE category conflicts; one held by
      an INACTIVE category brings that very row back with the new name and
      description; otherwise an ACTIVE category of the same name conflicts
      and a new ACTIVE row is added. */
  function CreateCategory(cats: map<int, Category>, name: string, description: string,
                          slug: Option<string>): (r: Result<(map<int, Category>, int)>)
    ensures r.Ok? <==>
      var s := GenerateSlug(slug.GetOr(Trim(name)));
      s != "" &&
      match BySlug(cats, s)
      case Some(k) => !cats[k].active
      case None => !ActiveNameTaken(cats, Trim(name), None)
    ensures r == Err(BadRequest) <==> GenerateSlug(slug.GetOr(Trim(name))) == ""
    ensures r.Ok? ==>
      var (cats', id) := r.value;
      && cats' == cats[id := Category(Trim(name), GenerateSlug(slug.GetOr(Trim(name))), Trim(description), true)]
      && (id in cats <==> BySlug(cats, cats'[id].slug).Some?)
      && (id in cats ==> id == BySlug(cats, cats'[id].slug).value && !cats[id].active)
    ensures r == Err(Conflict) <==>
      GenerateSlug(slug.GetOr(Trim(name))) != "" &&
      match BySlug(cats, GenerateSlug(slug.GetOr(Trim(name))))
      case Some(k) => cats[k].active
      case None => ActiveNameTaken(cats, Trim(name), None)
  {
    var name' := Trim(name);
    var description' := Trim(description);
    var slug' :- CategorySlug(slug.GetOr(name'));
    match BySlug(cats, slug')
    case Some(k) =>
      if cats[k].active then Err(Conflict)
      else Ok((cats[k := Category(name', slug', description', true)], k))
    case None =>
      if ActiveNameTaken(cats, name', None) then Err(Conflict)
      else
        var id := FreshId(cats.Keys);
        Ok((cats[id := Category(name', slug', description', true)], id))
  }

  lemma CreateCategoryKeepsSlugsUnique(cats: map<int, Category>, name: string, description: string, slug: Option<string>)
    requires UniqueSlugs(cats)
    requires CreateCategory(cats, name, description, slug).Ok?
    ensures UniqueSlugs(CreateCategory(cats, name, description, slug).value.0)
  {
  }

  /** A category other than `id` holds `slug`; with unique slugs this is
      `findUnique({ where: { slug } })` finding a row whose id is not `id`. */
  predicate SlugHeldByOther(cats: map<int, Category>, slug: string, id: int) {
    exists k :: k in cats && k != id && cats[k].slug == slug
  }

  /** `updateCategory`: only an ACTIVE category can be edited. Name and
      description are trimmed when sent; the slug is generated from the sent
      slug, else the sent (untrimmed) name, else the current slug. */
  function UpdateCategory(cats: map<int, Category>, id: int, name: Option<string>,
                          description: Option<string>, slug: Option<string>): (r: Result<map<int, Category>>)
    ensures r.Ok? <==>
      id in cats && cats[id].active &&
      var s := GenerateSlug(slug.GetOr(name.GetOr(cats[id].slug)));
      && s != ""
      && !SlugHeldByOther(cats, s, id)
      && !ActiveNameTaken(cats, if name.Some? then Trim(name.value) else cats[id].name, Some(id))
    ensures r == Err(NotFound) <==> !(id in cats && cats[id].active)
    ensures r.Ok? ==>
      var prev := cats[id];
      var slug' := GenerateSlug(slug.GetOr(name.GetOr(prev.slug)));
      && slug' != ""
      && r.value == cats[id := prev.(name := if name.Some? then Trim(name.value) else prev.name,
                                     slug := slug',
                                     description := if description.Some? then Trim(description.value) else prev.description)]
      && (forall k :: k in cats && k != id ==> cats[k].slug != slug')
      && !ActiveNameTaken(cats, r.value[id].name, Some(id))
    ensures r == Err(BadRequest) <==> id in cats && cats[id].active && GenerateSlug(slug.GetOr(name.GetOr(cats[id].slug))) == ""
    ensures r == Err(Conflict) <==>
      id in cats && cats[id].active && GenerateSlug(slug.GetOr(name.GetOr(cats[id].slug))) != "" &&
      (SlugHeldByOther(cats, GenerateSlug(slug.GetOr(name.GetOr(cats[id].slug))), id) ||
       ActiveNameTaken(cats, if name.Some? then Trim(name.value) else cats[id].name, Some(id)))
  {
    if !(id in cats && cats[id].active) then Err(NotFound)
    else
      var prev := cats[id];
      var name' := if name.Some? then Trim(name.value) else prev.name;
      var description' := if description.Some? then Trim(description.value) else prev.description;
      var slug' :- CategorySlug(slug.GetOr(name.GetOr(prev.slug)));
      if SlugHeldByOther(cats, slug', id) || ActiveNameTaken(cats, name', Some(id)) then Err(Conflict)
      else Ok(cats[id := prev.(name := name', slug := slug', description := description')])
  }

  lemma UpdateCategoryKeepsSlugsUnique(cats: map<int, Category>, id: int, name: Option<string>,
                                       description: Option<string>, slug: Option<string>)
    requires UniqueSlugs(cats)
    requires UpdateCategory(cats, id, name, description, slug).Ok?
    ensures UniqueSlugs(UpdateCategory(cats, id, name, description, slug).value)
  {
  }

  /** `deleteCategory`: ACTIVE becomes INACTIVE; the row and its slug stay,
      so a later `createCategory` with that slug reactivates it. */
  function DeleteCategory(cats: map<int, Category>, id: int): (r: Result<map<int, Category>>)
    ensures r.Err? <==> !(id in cats && cats[id].active)
    ensures r.Err? ==> r.error == NotFound
    ensures r.Ok? ==> r.value == cats[id := cats[id].(active := false)]
  {
    if !(id in cats && cats[id].active) then Err(NotFound)
    else Ok(cats[id := cats[id].(active := false)])
  }

  /** Deleting a category and creating it again under the same slug gives
      back the same row, active again. */
  lemma DeleteThenCreateReactivates(cats: map<int, Category>, id: int, name: string, description: string)
    requires UniqueSlugs(cats)
    requires id in cats && cats[id].active && cats[id].slug != "" && IsSlug(cats[id].slug)
    ensures var deleted := DeleteCategory(cats, id).value;
      var r := CreateCategory(deleted, name, description, Some(cats[id].slug));
      r.Ok? && r.value.1 == id && r.value.0[id].active
  {
    var deleted := DeleteCategory(cats, id).value;
    var s := cats[id].slug;
    SlugIsFixpoint(s);
    assert CategorySlug(s) == Ok(s);
    assert deleted[id].slug == s;
    var found := BySlug(deleted, s);
    assert found.Some? && deleted[found.value].slug == s;
    assert cats[found.value].slug == s;
    assert found.value == id;
    assert !deleted[id].active;
  }
}
