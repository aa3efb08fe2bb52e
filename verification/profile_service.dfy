/**
 * The portfolio owner's profile: the `profiles` table keyed by id, and the
 * service that reads and partially updates profile 1.
 */
module ProfileService {
  import opened Wrappers
  import opened Errors
  import opened Text

  /** The profile the service works on. */
  const OwnerId: nat := 1
  const NotFound := "Profile not found"
  /** The message of the unique `email` column's violation. */
  const DuplicateEmail := "profiles_email_key"

  datatype Profile = Profile(
    id: nat,
    fullName: Option<string>,
    email: Option<string>,
    phoneNumber: Option<string>,
    curriculumVitaeDownloadUrl: Option<string>,
    linkedinProfileUrl: Option<string>,
    createdAt: Option<int>,
    updatedAt: Option<int>,
    properties: map<string, string>)

  /** A request body: any field may be null. */
  datatype ProfileUpdate = ProfileUpdate(
    fullName: Option<string>,
    email: Option<string>,
    phoneNumber: Option<string>,
    curriculumVitaeDownloadUrl: Option<string>,
    linkedinProfileUrl: Option<string>,
    properties: Option<map<string, string>>)

  /** Stored profiles by id. */
  type Store = map<nat, Profile>

  /** The unique `email` column: no two stored profiles share an address. */
  predicate EmailsUnique(s: Store)
  {
    forall a, b | a in s && b in s && a != b :: s[a].email.None? || s[a].email != s[b].email
  }

  /** Each row is stored under its own id. */
  predicate IdsMatch(s: Store)
  {
    forall id | id in s :: s[id].id == id
  }

  /** `getProfile`: profile 1, or a `RuntimeException`. */
  function GetProfile(s: Store): (r: Result<Profile, Exc>)
    ensures r.Ok? <==> OwnerId in s
    ensures r.Ok? ==> r.value == s[OwnerId]
    ensures r.Err? ==> r.error == Exc(Runtime, NotFound)
  {
    if OwnerId in s then Ok(s[OwnerId]) else Err(Exc(Runtime, NotFound))
  }

  /** An incoming string replaces the stored one only when it is present
   *  and not blank. */
  function Keep(stored: Option<string>, incoming: Option<string>): (r: Option<string>)
    ensures r == incoming || r == stored
    ensures r == stored <== incoming.None? || IsJavaBlank(incoming.value)
    ensures r == incoming <== incoming.Some? && !IsJavaBlank(incoming.value)
  {
    if incoming.Some? && !IsJavaBlank(incoming.value) then incoming else stored
  }

  /** The stored profile after the merge of `updateProfile`. */
  function Merge(p: Profile, u: ProfileUpdate, now: int): (r: Profile)
    ensures r.id == p.id && r.createdAt == p.createdAt && r.updatedAt == Some(now)
    ensures r.fullName == Keep(p.fullName, u.fullName) && r.email == Keep(p.email, u.email)
    ensures r.phoneNumber == Keep(p.phoneNumber, u.phoneNumber)
    ensures r.curriculumVitaeDownloadUrl == Keep(p.curriculumVitaeDownloadUrl, u.curriculumVitaeDownloadUrl)
    ensures r.linkedinProfileUrl == Keep(p.linkedinProfileUrl, u.linkedinProfileUrl)
    ensures r.properties == (if u.properties.Some? then u.properties.value else p.properties)
  {
    p.(fullName := Keep(p.fullName, u.fullName),
       email := Keep(p.email, u.email),
       phoneNumber := Keep(p.phoneNumber, u.phoneNumber),
       curriculumVitaeDownloadUrl := Keep(p.curriculumVitaeDownloadUrl, u.curriculumVitaeDownloadUrl),
       linkedinProfileUrl := Keep(p.linkedinProfileUrl, u.linkedinProfileUrl),
       properties := if u.properties.Some? then u.properties.value else p.properties,
       updatedAt := Some(now))
  }

  /** `save` of an existing row; the unique `email` column refuses an address
   *  another profile holds. */
  function Save(s: Store, p: Profile): (r: Result<Store, Exc>)
    ensures r.Err? <==> exists b | b in s && b != p.id :: p.email.Some? && s[b].email == p.email
    ensures r.Err? ==> r.error == Exc(DataIntegrityViolation, DuplicateEmail)
    ensures r.Ok? ==> r.value == s[p.id := p]
    ensures r.Ok? && EmailsUnique(s) ==> EmailsUnique(r.value)
  {
    if exists b | b in s && b != p.id :: p.email.Some? && s[b].email == p.email then
      Err(Exc(DataIntegrityViolation, DuplicateEmail))
    else Ok(s[p.id := p])
  }

  /** `updateProfile`: merge the request into profile 1, stamp it, save it. */
  function UpdateProfile(s: Store, u: ProfileUpdate, now: int): (r: Result<(Store, Profile), Exc>)
    ensures OwnerId !in s ==> r == Err(Exc(Runtime, NotFound))
    ensures r.Ok? ==> OwnerId in s && r.value.1 == Merge(s[OwnerId], u, now)
    ensures r.Ok? && IdsMatch(s) ==> r.value.0 == s[OwnerId := r.value.1] && IdsMatch(r.value.0)
    ensures r.Ok? && EmailsUnique(s) ==> EmailsUnique(r.value.0)
    ensures OwnerId in s && IdsMatch(s) && EmailsUnique(s) && (u.email.None? || IsJavaBlank(u.email.value)) ==> r.Ok?
  {
    match GetProfile(s)
    case Err(e) => Err(e)
    case Ok(existing) =>
      var merged := Merge(existing, u, now);
      match Save(s, merged)
      case Err(e) => Err(e)
      case Ok(s') => Ok((s', merged))
  }

  /** An update with nothing usable in it only refreshes the timestamp, and
   *  applying an update a second time changes nothing but the timestamp. */
  lemma UpdateIdempotent(s: Store, u: ProfileUpdate, now: int, later: int)
    requires IdsMatch(s) && UpdateProfile(s, u, now).Ok?
    ensures var blank := ProfileUpdate(None, None, None, None, None, None);
            UpdateProfile(s, blank, now).Ok? ==> UpdateProfile(s, blank, now).value.1 == s[OwnerId].(updatedAt := Some(now))
    ensures var (s1, p1) := UpdateProfile(s, u, now).value;
            && UpdateProfile(s1, u, later).Ok?
            && UpdateProfile(s1, u, later).value.1 == p1.(updatedAt := Some(later))
  {
    var (s1, p1) := UpdateProfile(s, u, now).value;
    var p2 := Merge(p1, u, later);
    assert p2 == p1.(updatedAt := Some(later));
    assert forall b | b in s1 && b != OwnerId :: b in s && s1[b] == s[b];
  }

  /** A JSON member of a request body: left out, sent as null, or given. */
  datatype Field<T> = Omitted | Null | Given(value: T)

  /** A `PUT /profile` body as sent. */
  datatype ProfileBody = ProfileBody(
    fullName: Field<string>,
    email: Field<string>,
    phoneNumber: Field<string>,
    curriculumVitaeDownloadUrl: Field<string>,
    linkedinProfileUrl: Field<string>,
    properties: Field<map<string, string>>)

  function TextOf(f: Field<string>): (r: Option<string>)
    ensures r.Some? <==> f.Given?
    ensures r.Some? ==> r.value == f.value
  {
    if f.Given? then Some(f.value) else None
  }

  /** Jackson's binding of the body into `new Profile()`: a text member left
   *  out or null stays null, while `properties` starts as an empty map, so
   *  only an explicit null leaves it null. */
  function Bind(b: ProfileBody): (u: ProfileUpdate)
    ensures u.fullName.Some? <==> b.fullName.Given?
    ensures u.email.Some? <==> b.email.Given?
    ensures u.phoneNumber.Some? <==> b.phoneNumber.Given?
    ensures u.curriculumVitaeDownloadUrl.Some? <==> b.curriculumVitaeDownloadUrl.Given?
    ensures u.linkedinProfileUrl.Some? <==> b.linkedinProfileUrl.Given?
    ensures u.email.Some? ==> u.email.value == b.email.value
    ensures u.properties.None? <==> b.properties.Null?
    ensures b.properties.Omitted? ==> u.properties == Some(map[])
    ensures b.properties.Given? ==> u.properties == Some(b.properties.value)
  {
    ProfileUpdate(TextOf(b.fullName), TextOf(b.email), TextOf(b.phoneNumber),
                  TextOf(b.curriculumVitaeDownloadUrl), TextOf(b.linkedinProfileUrl),
                  match b.properties
                  case Omitted => Some(map[])
                  case Null => None
                  case Given(m) => Some(m))
  }

  /** `PUT /profile`: bind the body, then `updateProfile`. */
  function PutProfile(s: Store, b: ProfileBody, now: int): (r: Result<(Store, Profile), Exc>)
    ensures OwnerId !in s ==> r == Err(Exc(Runtime, NotFound))
    ensures r.Ok? ==> OwnerId in s && r.value.1 == Merge(s[OwnerId], Bind(b), now)
    ensures r.Ok? && IdsMatch(s) ==> r.value.0 == s[OwnerId := r.value.1]
  {
    UpdateProfile(s, Bind(b), now)
  }

  /** A body that leaves `properties` out wipes the stored properties;
   *  only an explicit null keeps them.  The update is partial for the text
   *  members only. */
  lemma OmittedPropertiesClearMap(s: Store, b: ProfileBody, now: int)
    requires PutProfile(s, b, now).Ok?
    ensures b.properties.Omitted? ==> PutProfile(s, b, now).value.1.properties == map[]
    ensures b.properties.Null? ==> PutProfile(s, b, now).value.1.properties == s[OwnerId].properties
    ensures b.properties.Given? ==> PutProfile(s, b, now).value.1.properties == b.properties.value
  {
  }

  /** A body naming only the full name, on a profile with properties: the
   *  properties are gone afterwards. */
  lemma NameOnlyBodyClearsProperties()
    ensures var owner := Profile(1, None, None, None, None, None, None, None, map["github" := "x"]);
            var b := ProfileBody(Given("Ada"), Omitted, Omitted, Omitted, Omitted, Omitted);
            var r := PutProfile(map[1 := owner], b, 5);
            && r.Ok? && r.value.1.fullName == Some("Ada") && r.value.1.properties == map[]
  {
    var owner := Profile(1, None, None, None, None, None, None, None, map["github" := "x"]);
    assert !IsJavaBlank("Ada") by { assert !IsJavaWhitespace("Ada"[0]); }
  }

  /** `addProperty(profileId, properties)`: `putAll` into that profile's
   *  properties. */
  function AddProperty(s: Store, profileId: nat, props: map<string, string>): (r: Result<Store, Exc>)
    ensures r.Ok? <==> profileId in s
    ensures r.Err? ==> r.error == Exc(Runtime, NotFound)
    ensures r.Ok? ==> r.value.Keys == s.Keys
    ensures r.Ok? ==>
              var q := r.value[profileId].properties;
              && (forall id | id in s && id != profileId :: r.value[id] == s[id])
              && r.value[profileId].(properties := s[profileId].properties) == s[profileId]
              && q.Keys == s[profileId].properties.Keys + props.Keys
              && (forall k | k in props :: q[k] == props[k])
              && (forall k | k in s[profileId].properties && k !in props :: q[k] == s[profileId].properties[k])
  {
    if profileId in s then
      var p := s[profileId];
      Ok(s[profileId := p.(properties := p.properties + props)])
    else Err(Exc(Runtime, NotFound))
  }

  /** Adding the same properties twice is adding them once. */
  lemma AddPropertyIdempotent(s: Store, profileId: nat, props: map<string, string>)
    requires profileId in s
    ensures AddProperty(AddProperty(s, profileId, props).value, profileId, props) == AddProperty(s, profileId, props)
  {
    var p := s[profileId];
    var once := p.(properties := p.properties + props);
    assert once.properties + props == p.properties + props;
    assert s[profileId := once][profileId := once] == s[profileId := once];
  }

  /** `getPropertiesByProfileId`, as written: the argument is ignored and
   *  profile 1's properties come back. */
  function GetPropertiesByProfileId(s: Store, profileId: nat): (r: Result<map<string, string>, Exc>)
    ensures r.Ok? <==> OwnerId in s
    ensures r.Ok? ==> r.value == s[OwnerId].properties
  {
    match GetProfile(s)
    case Err(e) => Err(e)
    case Ok(p) => Ok(p.properties)
  }

  /** Finding, as written: properties added to profile 2 are not what
   *  profile 2's lookup returns, and a lookup for a missing profile still
   *  answers. */
  lemma AddThenGetMissesOtherProfile()
    ensures var owner := Profile(1, None, None, None, None, None, None, None, map[]);
            var s := map[1 := owner, 2 := owner.(id := 2)];
            var s' := AddProperty(s, 2, map["github" := "x"]).value;
            && GetPropertiesByProfileId(s', 2) == Ok(map[])
            && GetPropertiesByProfileId(s', 7).Ok?
  {
  }

  /** `getPropertiesByProfileId` looking up the profile it is given. */
  function GetPropertiesByProfileIdIntended(s: Store, profileId: nat): (r: Result<map<string, string>, Exc>)
    ensures r.Ok? <==> profileId in s
    ensures r.Ok? ==> r.value == s[profileId].properties
    ensures r.Err? ==> r.error == Exc(Runtime, NotFound)
  {
    if profileId in s then Ok(s[profileId].properties) else Err(Exc(Runtime, NotFound))
  }

  /** Corrected: a profile's lookup sees every property added to it, and
   *  on profile 1 the two versions agree. */
  lemma AddThenGetIntended(s: Store, profileId: nat, props: map<string, string>, k: string)
    requires profileId in s && k in props
    ensures var s' := AddProperty(s, profileId, props).value;
            && GetPropertiesByProfileIdIntended(s', profileId).Ok?
            && k in GetPropertiesByProfileIdIntended(s', profileId).value
            && GetPropertiesByProfileIdIntended(s', profileId).value[k] == props[k]
    ensures GetPropertiesByProfileIdIntended(s, OwnerId) == GetPropertiesByProfileId(s, OwnerId)
  {
  }
}
