/** `ProfileService`: one profile per user, created once, updated field by
    field with its own normalisation of blank and null values, and deleted.
    Every lookup goes by user id (`findFirst({ where: { user_id } })`). */
module Profiles {
  import opened Outcomes
  import opened Json
  import opened Ids
  import opened Text
  import opened Transforms

  /** Where a stored avatar file name is served from. */
  const AvatarPrefix: string := "http://localhost:3000/files/"

  /** A row of `profiles`; `phone` and `country` are nullable. */
  datatype Profile = Profile(userId: int, fullName: string, phone: Option<string>, country: Option<string>)

  /** `getAvatarUrl`: no URL for a missing avatar or an empty file name (both
      falsy); otherwise the file name under the files route. */
  function GetAvatarUrl(avatar: Option<string>): (r: Option<string>)
    ensures r.None? <==> avatar.None? || avatar.value == ""
    ensures r.Some? ==> StartsWith(r.value, AvatarPrefix)
  {
    if avatar.Some? && avatar.value != "" then Some(AvatarPrefix + avatar.value) else None
  }

  /** The file name can be read back from the URL: stripping the route gives
      the stored avatar. */
  lemma AvatarUrlNamesFile(avatar: Option<string>)
    ensures var r := GetAvatarUrl(avatar);
      r.Some? ==> r.value[|AvatarPrefix|..] == avatar.value
  {
  }

  /** At most one profile per user. */
  ghost predicate OneProfilePerUser(profiles: map<int, Profile>) {
    forall a, b :: a in profiles && b in profiles && profiles[a].userId == profiles[b].userId ==> a == b
  }

  /** `findFirst({ where: { user_id } })`: the profile of user `userId`,
      taken to be the one with the smallest id. */
  function ProfileOf(profiles: map<int, Profile>, userId: int): (r: Option<int>)
    ensures r.None? <==> forall k :: k in profiles ==> profiles[k].userId != userId
    ensures r.Some? ==> r.value in profiles && profiles[r.value].userId == userId
  {
    var hits := set k | k in profiles && profiles[k].userId == userId;
    assert forall k :: k in profiles && profiles[k].userId == userId ==> k in hits;
    if hits == {} then None else Some(Min(hits))
  }

  /** The `phone` / `country` rule of the update: absent or a non-string
      other than null leaves the column alone (`None`); null clears it; a
      string is trimmed, and a blank one clears it. */
  function NullableChange(v: Option<Value>): (r: Option<Option<string>>)
    ensures r.None? <==> v.None? || (v.value != Null && !v.value.Str?)
    ensures v == Some(Null) ==> r == Some(None)
    ensures IsText(v) ==> r == Some(NonBlankText(v))
  {
    match v
    case Some(Null) => Some(None)
    case Some(Str(_)) => Some(NonBlankText(v))
    case _ => None
  }

  /** What an update writes: a new full name, a new phone, a new country. */
  datatype ProfileChange = ProfileChange(fullName: Option<string>, phone: Option<Option<string>>,
                                         country: Option<Option<string>>)

  function ChangeOf(fullName: Option<Value>, phone: Option<Value>, country: Option<Value>): ProfileChange {
    ProfileChange(NonBlankText(fullName), NullableChange(phone), NullableChange(country))
  }

  /** `p` with the change written over it. */
  function Apply(p: Profile, ch: ProfileChange): (r: Profile)
    ensures r.userId == p.userId
  {
    Profile(p.userId, ch.fullName.GetOr(p.fullName), ch.phone.GetOr(p.phone), ch.country.GetOr(p.country))
  }

  /** `updateProfile` / `updateMyProfile`: NotFound when the user has no
      profile; BadRequest when no field selects a change; otherwise the
      user's profile, and nothing else, gets the change. A stored name,
      phone or country written by an update is never blank and never has
      white space at either end. */
  function UpdateProfile(profiles: map<int, Profile>, userId: int,
                         fullName: Option<Value>, phone: Option<Value>, country: Option<Value>)
    : (r: Result<(map<int, Profile>, Profile)>)
    ensures r.Ok? <==>
      ProfileOf(profiles, userId).Some? && ChangeOf(fullName, phone, country) != ProfileChange(None, None, None)
    ensures r == Err(NotFound) <==> ProfileOf(profiles, userId).None?
    ensures r == Err(BadRequest) <==>
      ProfileOf(profiles, userId).Some? && ChangeOf(fullName, phone, country) == ProfileChange(None, None, None)
    ensures r.Ok? ==>
      var id := ProfileOf(profiles, userId).value;
      var ch := ChangeOf(fullName, phone, country);
      && r.value.1 == Apply(profiles[id], ch)
      && r.value.0 == profiles[id := r.value.1]
      && r.value.1.userId == userId
      && (ch.fullName.Some? ==> r.value.1.fullName != "" && IsTrimmed(r.value.1.fullName))
      && (r.value.1.phone.Some? && ch.phone.Some? ==> r.value.1.phone.value != "" && IsTrimmed(r.value.1.phone.value))
      && (r.value.1.country.Some? && ch.country.Some? ==>
            r.value.1.country.value != "" && IsTrimmed(r.value.1.country.value))
  {
    match ProfileOf(profiles, userId)
    case None => Err(NotFound)
    case Some(id) =>
      var ch := ChangeOf(fullName, phone, country);
      if ch == ProfileChange(None, None, None) then Err(BadRequest)
      else
        NonBlankTextIsTransform(fullName);
        NonBlankTextIsTransform(phone);
        NonBlankTextIsTransform(country);
        var p := Apply(profiles[id], ch);
        Ok((profiles[id := p], p))
  }

  /** `createProfile` / `createMyProfile`: Conflict when the user already
      has a profile; otherwise a new row under the next id, an omitted phone
      or country stored as null. */
  function CreateProfile(profiles: map<int, Profile>, userId: int, fullName: string,
                         phone: Option<string>, country: Option<string>)
    : (r: Result<(map<int, Profile>, int)>)
    ensures r.Err? <==> ProfileOf(profiles, userId).Some?
    ensures r.Err? ==> r.error == Conflict
    ensures r.Ok? ==>
      && r.value.1 !in profiles
      && r.value.0 == profiles[r.value.1 := Profile(userId, fullName, phone, country)]
  {
    if ProfileOf(profiles, userId).Some? then Err(Conflict)
    else
      var id := FreshId(profiles.Keys);
      Ok((profiles[id := Profile(userId, fullName, phone, country)], id))
  }

  /** `deleteProfile`: NotFound when the user has no profile; otherwise that
      profile is removed and returned. */
  function DeleteProfile(profiles: map<int, Profile>, userId: int): (r: Result<(map<int, Profile>, Profile)>)
    ensures r.Err? <==> ProfileOf(profiles, userId).None?
    ensures r.Err? ==> r.error == NotFound
    ensures r.Ok? ==>
      && r.value.1.userId == userId
      && r.value.0 == profiles - {ProfileOf(profiles, userId).value}
  {
    match ProfileOf(profiles, userId)
    case None => Err(NotFound)
    case Some(id) => Ok((profiles - {id}, profiles[id]))
  }

  /** Creating, updating and deleting keep at most one profile per user;
      after a successful create the user's profile is the new row, and after
      a delete the user has none. */
  lemma ProfileOperationsKeepOnePerUser(profiles: map<int, Profile>, userId: int, fullName: string,
                                        phone: Option<string>, country: Option<string>,
                                        nameIn: Option<Value>, phoneIn: Option<Value>, countryIn: Option<Value>)
    requires OneProfilePerUser(profiles)
    ensures var c := CreateProfile(profiles, userId, fullName, phone, country);
      c.Ok? ==> OneProfilePerUser(c.value.0) && ProfileOf(c.value.0, userId) == Some(c.value.1)
    ensures var u := UpdateProfile(profiles, userId, nameIn, phoneIn, countryIn);
      u.Ok? ==> OneProfilePerUser(u.value.0)
    ensures var d := DeleteProfile(profiles, userId);
      d.Ok? ==> OneProfilePerUser(d.value.0) && ProfileOf(d.value.0, userId).None?
  {
    var c := CreateProfile(profiles, userId, fullName, phone, country);
    if c.Ok? {
      var id := c.value.1;
      assert forall k :: k in c.value.0 && c.value.0[k].userId == userId ==> k == id;
      assert (set k | k in c.value.0 && c.value.0[k].userId == userId) == {id};
    }
  }
}
