/** The profile router's create-or-update handler (POST /api/profile) and the
    lookup by user id (GET /api/profile/user/:user_id), over a store that maps
    each user id to that user's one profile. */
module Profiles {
  import opened Responses
  import Text

  type UserId = string
  type EntryId = string

  datatype Platform = YouTube | Twitter | Facebook | LinkedIn | Instagram

  /** The scalar profile fields a request may set. */
  datatype Field = Company | Website | Location | Bio | Status | GithubUsername

  /** An element of the `experience` or `education` array of a profile. */
  datatype Entry =
    | Experience(id: EntryId, title: string, company: string, location: string,
                 from: string, to: string, current: bool, description: string)
    | Education(id: EntryId, school: string, degree: string, fieldofstudy: string,
                from: string, to: string, current: bool, description: string)

  datatype Profile = Profile(
    user: UserId,
    company: Option<string>,
    website: Option<string>,
    location: Option<string>,
    bio: Option<string>,
    status: Option<string>,
    githubusername: Option<string>,
    skills: seq<string>,
    social: map<Platform, string>,
    experience: seq<Entry>,
    education: seq<Entry>)
  {
    function Get(f: Field): Option<string> {
      match f
      case Company => company
      case Website => website
      case Location => location
      case Bio => bio
      case Status => status
      case GithubUsername => githubusername
    }
  }

  /** The profile collection, keyed by the owning user. */
  type Store = map<UserId, Profile>

  /** Each profile is filed under its own user: the one-profile-per-user rule. */
  predicate WellKeyed(store: Store) {
    forall u :: u in store ==> store[u].user == u
  }

  /** The body of POST /api/profile; a field the client left out is "". */
  datatype ProfileForm = ProfileForm(
    company: string, website: string, location: string, bio: string,
    status: string, githubusername: string, skills: string,
    youtube: string, facebook: string, twitter: string, instagram: string, linkedin: string)
  {
    function Get(f: Field): string {
      match f
      case Company => company
      case Website => website
      case Location => location
      case Bio => bio
      case Status => status
      case GithubUsername => githubusername
    }

    function Link(p: Platform): string {
      match p
      case YouTube => youtube
      case Twitter => twitter
      case Facebook => facebook
      case LinkedIn => linkedin
      case Instagram => instagram
    }
  }

  /** The `profileFields` object: the `$set` document of an update. A field
      left as None is not in the object at all. */
  datatype Patch = Patch(
    user: UserId,
    company: Option<string>,
    website: Option<string>,
    location: Option<string>,
    bio: Option<string>,
    status: Option<string>,
    githubusername: Option<string>,
    skills: Option<seq<string>>,
    social: map<Platform, string>)
  {
    function Get(f: Field): Option<string> {
      match f
      case Company => company
      case Website => website
      case Location => location
      case Bio => bio
      case Status => status
      case GithubUsername => githubusername
    }
  }

  /** `if (v) fields.x = v`: a string is kept only when it is truthy (non-empty). */
  function Kept(v: string): (o: Option<string>)
    ensures o.Some? <==> v != ""
    ensures o.Some? ==> o.value == v
  {
    if v != "" then Some(v) else None
  }

  /** `skills.split(',').map(skill => skill.trim())`. */
  function ParseSkills(s: string): (skills: seq<string>)
    ensures |skills| == Text.Count(s, ',') + 1
    ensures forall k :: 0 <= k < |skills| ==> skills[k] == Text.Trim(Text.Split(s, ',')[k])
    ensures forall k :: 0 <= k < |skills| ==> ',' !in skills[k]
  {
    var parts := Text.Split(s, ',');
    Text.SplitPiecesHaveNoSeparator(s, ',');
    seq(|parts|, k requires 0 <= k < |parts| => Text.Trim(parts[k]))
  }

  /** A skill list written out comma-separated is read back as the same list,
      provided no skill holds a comma or starts or ends with white space. */
  lemma ParseSkillsRoundTrip(skills: seq<string>)
    requires |skills| > 0
    requires forall k :: 0 <= k < |skills| ==> ',' !in skills[k] && Text.Trim(skills[k]) == skills[k]
    ensures ParseSkills(Text.Join(skills, ',')) == skills
  {
    Text.SplitJoin(skills, ',');
  }

  /** The `social` object, built one platform at a time in the handler's order. */
  function BuildSocial(form: ProfileForm): (social: map<Platform, string>)
    ensures forall p :: p in social <==> form.Link(p) != ""
    ensures forall p :: p in social ==> social[p] == form.Link(p)
  {
    var m0: map<Platform, string> := map[];
    var m1 := if form.youtube != "" then m0[YouTube := form.youtube] else m0;
    var m2 := if form.twitter != "" then m1[Twitter := form.twitter] else m1;
    var m3 := if form.facebook != "" then m2[Facebook := form.facebook] else m2;
    var m4 := if form.linkedin != "" then m3[LinkedIn := form.linkedin] else m3;
    if form.instagram != "" then m4[Instagram := form.instagram] else m4
  }

  /** The `profileFields` object built from a request by `caller`. */
  function BuildPatch(caller: UserId, form: ProfileForm): (patch: Patch)
    ensures patch.user == caller
    ensures forall f :: patch.Get(f).Some? <==> form.Get(f) != ""
    ensures forall f :: patch.Get(f).Some? ==> patch.Get(f).value == form.Get(f)
    ensures patch.skills.Some? <==> form.skills != ""
    ensures patch.skills.Some? ==> patch.skills.value == ParseSkills(form.skills)
    ensures forall p :: p in patch.social <==> form.Link(p) != ""
    ensures forall p :: p in patch.social ==> patch.social[p] == form.Link(p)
  {
    Patch(
      caller,
      Kept(form.company),
      Kept(form.website),
      Kept(form.location),
      Kept(form.bio),
      Kept(form.status),
      Kept(form.githubusername),
      if form.skills != "" then Some(ParseSkills(form.skills)) else None,
      BuildSocial(form))
  }

  /** `new Profile(profileFields)`: absent scalars stay absent and the arrays
      start empty. */
  function Create(patch: Patch): (p: Profile)
    ensures p.user == patch.user
    ensures forall f :: p.Get(f) == patch.Get(f)
    ensures patch.skills.Some? ==> p.skills == patch.skills.value
    ensures patch.skills.None? ==> p.skills == []
    ensures p.social == patch.social
    ensures p.experience == [] && p.education == []
  {
    Profile(patch.user, patch.company, patch.website, patch.location, patch.bio,
            patch.status, patch.githubusername,
            if patch.skills.Some? then patch.skills.value else [],
            patch.social, [], [])
  }

  /** A field the patch sets replaces the stored one. */
  function Override<T>(patched: Option<T>, current: Option<T>): Option<T> {
    if patched.Some? then patched else current
  }

  function Pick<T>(patched: Option<T>, current: T): T {
    if patched.Some? then patched.value else current
  }

  /** `{ $set: profileFields }` applied to a stored profile: each top-level field in
      the patch replaces the stored one (`social` as a whole object), every other
      field keeps its value. */
  function ApplyPatch(p: Profile, patch: Patch): (r: Profile)
    ensures r.user == patch.user
    ensures forall f :: patch.Get(f).Some? ==> r.Get(f) == patch.Get(f)
    ensures forall f :: patch.Get(f).None? ==> r.Get(f) == p.Get(f)
    ensures patch.skills.Some? ==> r.skills == patch.skills.value
    ensures patch.skills.None? ==> r.skills == p.skills
    ensures r.social == patch.social
    ensures r.experience == p.experience && r.education == p.education
  {
    Profile(
      patch.user,
      Override(patch.company, p.company),
      Override(patch.website, p.website),
      Override(patch.location, p.location),
      Override(patch.bio, p.bio),
      Override(patch.status, p.status),
      Override(patch.githubusername, p.githubusername),
      Pick(patch.skills, p.skills),
      patch.social,
      p.experience,
      p.education)
  }

  /** The validation rules of POST /api/profile. */
  function ProfileRules(form: ProfileForm): seq<Rule> {
    [Rule("status", form.status, "Status is required"),
     Rule("skills", form.skills, "Skills is required")]
  }

  /** POST /api/profile by `caller`. A valid request creates the profile when
      there is none (and then, falling through to the update branch, applies the
      same `$set` to it) or applies the `$set` to the existing one. */
  function Upsert(store: Store, caller: UserId, form: ProfileForm): (r: Result<Reply<Store, Profile>>)
    ensures r.Err? <==> form.status == "" || form.skills == ""
    ensures r.Err? ==> r.error.Invalid? && r.error.Status() == 400
    ensures r.Err? ==> (FieldError("status", "Status is required") in r.error.errors <==> form.status == "")
    ensures r.Err? ==> (FieldError("skills", "Skills is required") in r.error.errors <==> form.skills == "")
    ensures r.Ok? ==> r.value.state == store[caller := r.value.body]
    ensures r.Ok? && caller !in store ==> r.value.body == Create(BuildPatch(caller, form))
    ensures r.Ok? && caller in store ==> r.value.body == ApplyPatch(store[caller], BuildPatch(caller, form))
  {
    ProfileViolations(form);
    var errs := Violations(ProfileRules(form));
    if |errs| > 0 then Err(Invalid(errs))
    else
      var patch := BuildPatch(caller, form);
      var found := if caller in store then Some(store[caller]) else None;
      var base := if found.None? then Create(patch) else found.value;
      var updated := ApplyPatch(base, patch);
      Ok(Reply(store[caller := updated], updated))
  }

  /** GET /api/profile/user/:user_id. An absent profile is answered with 400. */
  function GetByUser(store: Store, userId: UserId): (r: Result<Profile>)
    ensures r.Ok? <==> userId in store
    ensures r.Ok? ==> r.value == store[userId]
    ensures r.Err? ==> r.error.Status() == 400
  {
    if userId in store then Ok(store[userId])
    else Err(Refused(400, "there no profile for this user"))
  }

  /** Setting the same patch twice is the same as setting it once. */
  lemma ApplyPatchIdempotent(p: Profile, patch: Patch)
    ensures ApplyPatch(ApplyPatch(p, patch), patch) == ApplyPatch(p, patch)
  {
  }

  /** Sending the same profile request twice leaves the store as sending it once. */
  lemma UpsertTwice(store: Store, caller: UserId, form: ProfileForm)
    requires Upsert(store, caller, form).Ok?
    ensures var once := Upsert(store, caller, form).value;
      Upsert(once.state, caller, form) == Ok(once)
  {
    var patch := BuildPatch(caller, form);
    var once := Upsert(store, caller, form).value;
    ApplyPatchIdempotent(if caller in store then store[caller] else Create(patch), patch);
    assert once.state[caller := once.body] == once.state;
  }

  /** Upsert keeps every profile filed under its own user. */
  lemma UpsertKeepsWellKeyed(store: Store, caller: UserId, form: ProfileForm)
    requires WellKeyed(store)
    ensures Upsert(store, caller, form).Ok? ==> WellKeyed(Upsert(store, caller, form).value.state)
  {
  }

  /** The errors of the two profile rules: the failed ones, status before skills. */
  lemma ProfileViolations(form: ProfileForm)
    ensures Violations(ProfileRules(form)) ==
      (if form.status == "" then [FieldError("status", "Status is required")] else []) +
      (if form.skills == "" then [FieldError("skills", "Skills is required")] else [])
  {
    var rules := ProfileRules(form);
    assert rules[1..][1..] == [];
  }

  /** A failed upsert lists every violated rule, in rule order. */
  lemma UpsertReportsEveryViolation(store: Store, caller: UserId, form: ProfileForm)
    ensures form.status == "" && form.skills == "" ==>
      Upsert(store, caller, form) == Err(Invalid([FieldError("status", "Status is required"),
                                                  FieldError("skills", "Skills is required")]))
    ensures form.status == "" && form.skills != "" ==>
      Upsert(store, caller, form) == Err(Invalid([FieldError("status", "Status is required")]))
    ensures form.status != "" && form.skills == "" ==>
      Upsert(store, caller, form) == Err(Invalid([FieldError("skills", "Skills is required")]))
  {
  }

  /** Reading a profile back after a successful upsert: every field the request
      supplied holds the supplied value, `skills` holds the parsed list, `social`
      holds exactly the supplied links, and everything the request left out keeps
      its previous value (absent, or empty arrays, for a new profile). */
  lemma UpsertThenGet(store: Store, caller: UserId, form: ProfileForm)
    requires form.status != "" && form.skills != ""
    ensures Upsert(store, caller, form).Ok?
    ensures var p := GetByUser(Upsert(store, caller, form).value.state, caller);
      && p.Ok?
      && p.value.user == caller
      && (forall f :: form.Get(f) != "" ==> p.value.Get(f) == Some(form.Get(f)))
      && (forall f :: form.Get(f) == "" ==> p.value.Get(f) == (if caller in store then store[caller].Get(f) else None))
      && p.value.skills == ParseSkills(form.skills)
      && (forall q :: q in p.value.social <==> form.Link(q) != "")
      && (forall q :: q in p.value.social ==> p.value.social[q] == form.Link(q))
      && p.value.experience == (if caller in store then store[caller].experience else [])
      && p.value.education == (if caller in store then store[caller].education else [])
  {
  }
}
