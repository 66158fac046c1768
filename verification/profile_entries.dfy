/** The experience and education handlers of the profile router:
    PUT /api/profile/experience and /education put a new entry at the front of
    the list; DELETE /api/profile/experience/:exp_id and /education/:edu_id are
    modelled as written, and beside them a removal that looks the entry up by id. */
module ProfileEntries {
  import opened Responses
  import JsArray
  import opened Profiles

  /** Which of the two entry lists of a profile an operation works on. */
  datatype Section = ExperienceSection | EducationSection

  function Entries(p: Profile, section: Section): seq<Entry> {
    match section
    case ExperienceSection => p.experience
    case EducationSection => p.education
  }

  function WithEntries(p: Profile, section: Section, es: seq<Entry>): (q: Profile)
    ensures Entries(q, section) == es
    ensures section == ExperienceSection ==> q == p.(experience := es)
    ensures section == EducationSection ==> q == p.(education := es)
  {
    match section
    case ExperienceSection => p.(experience := es)
    case EducationSection => p.(education := es)
  }

  /** Entry ids are unique within their list. */
  predicate UniqueIds(es: seq<Entry>) {
    forall i, j :: 0 <= i < j < |es| ==> es[i].id != es[j].id
  }

  /** The position of the first entry with the given id, or -1. */
  function EntryIndex(es: seq<Entry>, id: EntryId): (k: int)
    ensures -1 <= k < |es|
    ensures k == -1 <==> forall j :: 0 <= j < |es| ==> es[j].id != id
    ensures 0 <= k ==> es[k].id == id && forall j :: 0 <= j < k ==> es[j].id != id
    ensures 0 <= k && UniqueIds(es) ==> forall j :: 0 <= j < |es| && j != k ==> es[j].id != id
  {
    JsArray.FindIndex(es, (e: Entry) => e.id == id)
  }

  /** The body of PUT /api/profile/experience; a field left out is "". */
  datatype ExperienceForm = ExperienceForm(
    title: string, company: string, location: string,
    from: string, to: string, current: bool, description: string)

  /** The body of PUT /api/profile/education; a field left out is "". */
  datatype EducationForm = EducationForm(
    school: string, degree: string, fieldofstudy: string,
    from: string, to: string, current: bool, description: string)

  function ExperienceRules(form: ExperienceForm): seq<Rule> {
    [Rule("title", form.title, "title is required"),
     Rule("company", form.company, "company is required"),
     Rule("from", form.from, "From date is required")]
  }

  function EducationRules(form: EducationForm): seq<Rule> {
    [Rule("school", form.school, "school is required"),
     Rule("degree", form.degree, "Deree is required"),
     Rule("fieldofstudy", form.fieldofstudy, "Field of study is required"),
     Rule("from", form.from, "From date is required")]
  }

  /** The errors of the experience rules: the failed ones, in rule order. */
  lemma ExperienceViolations(form: ExperienceForm)
    ensures Violations(ExperienceRules(form)) ==
      (if form.title == "" then [FieldError("title", "title is required")] else []) +
      ((if form.company == "" then [FieldError("company", "company is required")] else []) +
       (if form.from == "" then [FieldError("from", "From date is required")] else []))
  {
    var rules := ExperienceRules(form);
    ViolationsOfThree(rules[0], rules[1], rules[2]);
    assert rules == [rules[0], rules[1], rules[2]];
    assert Reported(rules[0]) == (if form.title == "" then [FieldError("title", "title is required")] else []);
    assert Reported(rules[1]) == (if form.company == "" then [FieldError("company", "company is required")] else []);
    assert Reported(rules[2]) == (if form.from == "" then [FieldError("from", "From date is required")] else []);
  }

  /** The errors of the education rules: the failed ones, in rule order. */
  lemma EducationViolations(form: EducationForm)
    ensures Violations(EducationRules(form)) ==
      (if form.school == "" then [FieldError("school", "school is required")] else []) +
      ((if form.degree == "" then [FieldError("degree", "Deree is required")] else []) +
       ((if form.fieldofstudy == "" then [FieldError("fieldofstudy", "Field of study is required")] else []) +
        (if form.from == "" then [FieldError("from", "From date is required")] else [])))
  {
    var rules := EducationRules(form);
    ViolationsOfFour(rules[0], rules[1], rules[2], rules[3]);
    assert rules == [rules[0], rules[1], rules[2], rules[3]];
    assert Reported(rules[0]) == (if form.school == "" then [FieldError("school", "school is required")] else []);
    assert Reported(rules[1]) == (if form.degree == "" then [FieldError("degree", "Deree is required")] else []);
    assert Reported(rules[2]) == (if form.fieldofstudy == "" then [FieldError("fieldofstudy", "Field of study is required")] else []);
    assert Reported(rules[3]) == (if form.from == "" then [FieldError("from", "From date is required")] else []);
  }

  /** `profile.<list>.unshift(entry)` on the caller's profile. A caller without a
      profile makes the handler read a property of null, answered with 500. */
  function Prepend(store: Store, caller: UserId, section: Section, entry: Entry): (r: Result<Reply<Store, Profile>>)
    ensures r.Err? <==> caller !in store
    ensures r.Err? ==> r.error == ServerError
    ensures r.Ok? ==>
      var es := Entries(store[caller], section);
      var q := r.value.body;
      && |Entries(q, section)| == |es| + 1
      && Entries(q, section)[0] == entry
      && Entries(q, section)[1..] == es
      && q == WithEntries(store[caller], section, Entries(q, section))
      && r.value.state == store[caller := q]
  {
    if caller !in store then Err(ServerError)
    else
      var p := store[caller];
      var q := WithEntries(p, section, [entry] + Entries(p, section));
      Ok(Reply(store[caller := q], q))
  }

  /** PUT /api/profile/experience: the new entry, with the id the database
      assigns, becomes the first experience entry; nothing else changes. */
  function AddExperience(store: Store, caller: UserId, form: ExperienceForm, id: EntryId): (r: Result<Reply<Store, Profile>>)
    ensures (r.Err? && r.error.Invalid?) <==> form.title == "" || form.company == "" || form.from == ""
    ensures r.Err? && r.error.Invalid? ==> (r.error.errors ==
      (if form.title == "" then [FieldError("title", "title is required")] else []) +
      ((if form.company == "" then [FieldError("company", "company is required")] else []) +
       (if form.from == "" then [FieldError("from", "From date is required")] else [])))
    ensures form.title != "" && form.company != "" && form.from != "" && caller !in store ==> r == Err(ServerError)
    ensures form.title != "" && form.company != "" && form.from != "" && caller in store ==> r.Ok?
    ensures r.Ok? ==>
      && caller in store
      && var before := store[caller].experience;
      && var q := r.value.body;
      && |q.experience| == |before| + 1
      && q.experience[0] == Experience(id, form.title, form.company, form.location,
                                       form.from, form.to, form.current, form.description)
      && q.experience[1..] == before
      && q == store[caller].(experience := q.experience)
      && r.value.state == store[caller := q]
  {
    ExperienceViolations(form);
    var errs := Violations(ExperienceRules(form));
    if |errs| > 0 then Err(Invalid(errs))
    else
      Prepend(store, caller, ExperienceSection,
              Experience(id, form.title, form.company, form.location,
                         form.from, form.to, form.current, form.description))
  }

  /** PUT /api/profile/education: the new entry becomes the first education
      entry; nothing else changes. */
  function AddEducation(store: Store, caller: UserId, form: EducationForm, id: EntryId): (r: Result<Reply<Store, Profile>>)
    ensures (r.Err? && r.error.Invalid?) <==>
      form.school == "" || form.degree == "" || form.fieldofstudy == "" || form.from == ""
    ensures r.Err? && r.error.Invalid? ==> (r.error.errors ==
      (if form.school == "" then [FieldError("school", "school is required")] else []) +
      ((if form.degree == "" then [FieldError("degree", "Deree is required")] else []) +
       ((if form.fieldofstudy == "" then [FieldError("fieldofstudy", "Field of study is required")] else []) +
        (if form.from == "" then [FieldError("from", "From date is required")] else []))))
    ensures form.school != "" && form.degree != "" && form.fieldofstudy != "" && form.from != "" && caller !in store ==>
      r == Err(ServerError)
    ensures form.school != "" && form.degree != "" && form.fieldofstudy != "" && form.from != "" && caller in store ==>
      r.Ok?
    ensures r.Ok? ==>
      && caller in store
      && var before := store[caller].education;
      && var q := r.value.body;
      && |q.education| == |before| + 1
      && q.education[0] == Education(id, form.school, form.degree, form.fieldofstudy,
                                      form.from, form.to, form.current, form.description)
      && q.education[1..] == before
      && q == store[caller].(education := q.education)
      && r.value.state == store[caller := q]
  {
    EducationViolations(form);
    var errs := Violations(EducationRules(form));
    if |errs| > 0 then Err(Invalid(errs))
    else
      Prepend(store, caller, EducationSection,
              Education(id, form.school, form.degree, form.fieldofstudy,
                        form.from, form.to, form.current, form.description))
  }

  /** The removal as the handlers are written: the position is looked up in
      `list.map(item => { item.id; })`, which holds only `undefined`, so
      `indexOf` answers -1 and `splice(-1, 1)` drops the last entry. */
  function RemoveAsWritten(store: Store, caller: UserId, section: Section, id: EntryId): (r: Result<Reply<Store, Profile>>)
    ensures r.Err? <==> caller !in store
    ensures r.Err? ==> r.error == ServerError
    ensures r.Ok? ==>
      var es := Entries(store[caller], section);
      var q := r.value.body;
      && (|es| == 0 ==> Entries(q, section) == [])
      && (|es| > 0 ==> Entries(q, section) == es[..|es| - 1])
      && q == WithEntries(store[caller], section, Entries(q, section))
      && r.value.state == store[caller := q]
  {
    if caller !in store then Err(ServerError)
    else
      var p := store[caller];
      var es := Entries(p, section);
      var removeIndex := JsArray.IndexOf(JsArray.MapToUndefined(es), JsArray.Str(id));
      JsArray.UndefinedHoldsNoString(es, id);
      var q := WithEntries(p, section, JsArray.Splice(es, removeIndex));
      Ok(Reply(store[caller := q], q))
  }

  /** DELETE /api/profile/experience/:exp_id: whatever the id, the last
      experience entry goes (none when the list is empty); nothing else changes. */
  function RemoveExperience(store: Store, caller: UserId, expId: EntryId): (r: Result<Reply<Store, Profile>>)
    ensures r.Err? <==> caller !in store
    ensures r.Err? ==> r.error == ServerError
    ensures r.Ok? ==>
      var before := store[caller].experience;
      var q := r.value.body;
      && (|before| == 0 ==> q.experience == [])
      && (|before| > 0 ==> q.experience == before[..|before| - 1])
      && q == store[caller].(experience := q.experience)
      && r.value.state == store[caller := q]
  {
    var r := RemoveAsWritten(store, caller, ExperienceSection, expId);
    assert caller in store ==> Entries(store[caller], ExperienceSection) == store[caller].experience;
    r
  }

  /** DELETE /api/profile/education/:edu_id: whatever the id, the last
      education entry goes (none when the list is empty); nothing else changes. */
  function RemoveEducation(store: Store, caller: UserId, eduId: EntryId): (r: Result<Reply<Store, Profile>>)
    ensures r.Err? <==> caller !in store
    ensures r.Err? ==> r.error == ServerError
    ensures r.Ok? ==>
      var before := store[caller].education;
      var q := r.value.body;
      && (|before| == 0 ==> q.education == [])
      && (|before| > 0 ==> q.education == before[..|before| - 1])
      && q == store[caller].(education := q.education)
      && r.value.state == store[caller := q]
  {
    var r := RemoveAsWritten(store, caller, EducationSection, eduId);
    assert caller in store ==> Entries(store[caller], EducationSection) == store[caller].education;
    r
  }

  /** The removal the handlers evidently mean: find the entry with the given id
      and remove exactly that one, answering 404 when there is none. */
  function RemoveById(store: Store, caller: UserId, section: Section, id: EntryId): (r: Result<Reply<Store, Profile>>)
    ensures caller !in store ==> r == Err(ServerError)
    ensures caller in store ==>
      (r.Err? <==> forall k :: 0 <= k < |Entries(store[caller], section)| ==> Entries(store[caller], section)[k].id != id)
    ensures caller in store && r.Err? ==> r.error.Status() == 404
    ensures r.Ok? ==>
      var es := Entries(store[caller], section);
      var k := EntryIndex(es, id);
      var q := r.value.body;
      && 0 <= k && es[k].id == id
      && Entries(q, section) == es[..k] + es[k + 1..]
      && q == WithEntries(store[caller], section, Entries(q, section))
      && r.value.state == store[caller := q]
  {
    if caller !in store then Err(ServerError)
    else
      var p := store[caller];
      var es := Entries(p, section);
      var k := EntryIndex(es, id);
      if k < 0 then Err(Refused(404, "entry not found"))
      else
        var q := WithEntries(p, section, es[..k] + es[k + 1..]);
        Ok(Reply(store[caller := q], q))
  }

  /** The id named in the request plays no part in the removal as written. */
  lemma RemoveIgnoresId(store: Store, caller: UserId, section: Section, a: EntryId, b: EntryId)
    ensures RemoveAsWritten(store, caller, section, a) == RemoveAsWritten(store, caller, section, b)
  {
  }

  /** With unique ids, the removal as written does what a removal by id does
      exactly when the id names the last entry. */
  lemma {:induction false} RemoveAsWrittenMatchesOnlyLast(store: Store, caller: UserId, section: Section, id: EntryId)
    requires caller in store
    requires UniqueIds(Entries(store[caller], section))
    ensures var es := Entries(store[caller], section);
      RemoveAsWritten(store, caller, section, id) == RemoveById(store, caller, section, id)
      <==> |es| > 0 && es[|es| - 1].id == id
  {
    var es := Entries(store[caller], section);
    if k :| 0 <= k < |es| && es[k].id == id {
      RemovalsAgreeOnlyAtLast(store, caller, section, id, k);
    } else {
      RemovalsDisagreeWhenMissing(store, caller, section, id);
    }
  }

  /** When no entry has the id, the removal by id answers 404 while the
      removal as written succeeds. */
  lemma {:induction false} RemovalsDisagreeWhenMissing(store: Store, caller: UserId, section: Section, id: EntryId)
    requires caller in store
    requires forall k :: 0 <= k < |Entries(store[caller], section)| ==> Entries(store[caller], section)[k].id != id
    ensures var es := Entries(store[caller], section);
      RemoveAsWritten(store, caller, section, id) == RemoveById(store, caller, section, id)
      <==> |es| > 0 && es[|es| - 1].id == id
  {
    var es := Entries(store[caller], section);
    assert RemoveById(store, caller, section, id).Err?;
    assert RemoveAsWritten(store, caller, section, id).Ok?;
    assert |es| > 0 ==> es[|es| - 1].id != id;
  }

  /** With unique ids and the id at position `k`, the two removals agree
      exactly when `k` is the last position. */
  lemma {:induction false} RemovalsAgreeOnlyAtLast(store: Store, caller: UserId, section: Section, id: EntryId, k: nat)
    requires caller in store && UniqueIds(Entries(store[caller], section))
    requires k < |Entries(store[caller], section)| && Entries(store[caller], section)[k].id == id
    ensures var es := Entries(store[caller], section);
      RemoveAsWritten(store, caller, section, id) == RemoveById(store, caller, section, id)
      <==> |es| > 0 && es[|es| - 1].id == id
  {
    var p := store[caller];
    var es := Entries(p, section);
    var last := |es| - 1;
    var dropped := WithEntries(p, section, es[..last]);
    var cut := WithEntries(p, section, es[..k] + es[k + 1..]);
    RemoveAsWrittenDropsLast(store, caller, section, id);
    RemoveByIdCutsAt(store, caller, section, id, k);
    assert dropped == cut <==> es[..last] == es[..k] + es[k + 1..] by {
      assert Entries(dropped, section) == es[..last] && Entries(cut, section) == es[..k] + es[k + 1..];
    }
    CutIsDropLastIffLast(es, k);
  }

  /** On a non-empty list, the removal as written answers with the profile
      whose list has lost its last entry. */
  lemma {:induction false} RemoveAsWrittenDropsLast(store: Store, caller: UserId, section: Section, id: EntryId)
    requires caller in store && |Entries(store[caller], section)| > 0
    ensures var es := Entries(store[caller], section);
      var q := WithEntries(store[caller], section, es[..|es| - 1]);
      RemoveAsWritten(store, caller, section, id) == Ok(Reply(store[caller := q], q))
  {
  }

  /** With unique ids, the removal by id of the entry at `k` answers with the
      profile whose list has lost exactly that entry. */
  lemma {:induction false} RemoveByIdCutsAt(store: Store, caller: UserId, section: Section, id: EntryId, k: nat)
    requires caller in store && UniqueIds(Entries(store[caller], section))
    requires k < |Entries(store[caller], section)| && Entries(store[caller], section)[k].id == id
    ensures var es := Entries(store[caller], section);
      var q := WithEntries(store[caller], section, es[..k] + es[k + 1..]);
      RemoveById(store, caller, section, id) == Ok(Reply(store[caller := q], q))
  {
    assert EntryIndex(Entries(store[caller], section), id) == k;
  }

  /** With unique ids, cutting out position `k` leaves the same list as
      dropping the last entry exactly when `k` is the last position. */
  lemma CutIsDropLastIffLast(es: seq<Entry>, k: nat)
    requires k < |es| && UniqueIds(es)
    ensures es[..k] + es[k + 1..] == es[..|es| - 1] <==> k == |es| - 1
    ensures es[|es| - 1].id == es[k].id <==> k == |es| - 1
  {
    if k < |es| - 1 {
      var cut := es[..k] + es[k + 1..];
      assert cut[k] == es[k + 1];
      assert es[..|es| - 1][k] == es[k];
    } else {
      assert es[k + 1..] == [];
    }
  }

  /** Adding an entry and then removing it by its id gives back the store: the
      lookup finds the new entry first. */
  lemma {:induction false} AddThenRemoveById(store: Store, caller: UserId, section: Section, entry: Entry)
    requires caller in store
    ensures Prepend(store, caller, section, entry).Ok?
    ensures var added := Prepend(store, caller, section, entry).value.state;
      RemoveById(added, caller, section, entry.id) == Ok(Reply(store, store[caller]))
  {
    var p := store[caller];
    var q1 := PrependedProfile(store, caller, section, entry);
    var added := store[caller := q1];
    RemoveByIdFirst(added, caller, section, entry.id);
    Restored(store, caller, q1);
  }

  /** Filing a profile under a user and then filing the user's old profile
      again gives back the store. */
  lemma Restored<K, V>(m: map<K, V>, k: K, v: V)
    requires k in m
    ensures m[k := v][k := m[k]] == m
  {
  }

  /** The profile `Prepend` files: the caller's, with `entry` put in front of
      the list, which gives back the caller's profile once the old list is put
      back. */
  lemma PrependedProfile(store: Store, caller: UserId, section: Section, entry: Entry) returns (q: Profile)
    requires caller in store
    ensures Prepend(store, caller, section, entry) == Ok(Reply(store[caller := q], q))
    ensures |Entries(q, section)| > 0 && Entries(q, section)[0] == entry
    ensures WithEntries(q, section, Entries(q, section)[1..]) == store[caller]
  {
    var p := store[caller];
    var es := Entries(p, section);
    q := WithEntries(p, section, [entry] + es);
    assert Entries(q, section)[1..] == es;
    RestoreEntries(p, section, [entry] + es);
  }

  /** The removal by id of the first entry's id answers with the profile whose
      list has lost its first entry. */
  lemma RemoveByIdFirst(store: Store, caller: UserId, section: Section, id: EntryId)
    requires caller in store && |Entries(store[caller], section)| > 0
    requires Entries(store[caller], section)[0].id == id
    ensures var es := Entries(store[caller], section);
      var q := WithEntries(store[caller], section, es[1..]);
      RemoveById(store, caller, section, id) == Ok(Reply(store[caller := q], q))
  {
    var es := Entries(store[caller], section);
    var r := RemoveById(store, caller, section, id);
    assert EntryIndex(es, id) == 0;
    assert r.Ok?;
    assert Entries(r.value.body, section) == es[1..] by {
      assert es[..0] + es[1..] == es[1..];
    }
  }

  /** Putting a profile's own list back over any other list gives the profile. */
  lemma RestoreEntries(p: Profile, section: Section, other: seq<Entry>)
    ensures WithEntries(WithEntries(p, section, other), section, Entries(p, section)) == p
  {
    match section
    case ExperienceSection => {}
    case EducationSection => {}
  }

  /** Adding an entry and then calling the removal as written on its id gives
      back the store only when the list was empty: otherwise it is the oldest
      entry that goes. */
  lemma {:induction false} AddThenRemoveAsWritten(store: Store, caller: UserId, section: Section, entry: Entry)
    requires caller in store
    requires forall k :: 0 <= k < |Entries(store[caller], section)| ==> Entries(store[caller], section)[k].id != entry.id
    ensures Prepend(store, caller, section, entry).Ok?
    ensures var added := Prepend(store, caller, section, entry).value.state;
      RemoveAsWritten(added, caller, section, entry.id).Ok? &&
      (RemoveAsWritten(added, caller, section, entry.id).value.state == store <==> |Entries(store[caller], section)| == 0)
  {
    var p := store[caller];
    var es := Entries(p, section);
    var q1 := PrependedProfile(store, caller, section, entry);
    var added := store[caller := q1];
    RemoveAsWrittenDropsLast(added, caller, section, entry.id);
    var q2 := WithEntries(q1, section, Entries(q1, section)[..|es|]);
    var after := added[caller := q2];
    if |es| == 0 {
      assert Entries(q1, section)[..|es|] == Entries(q1, section)[1..];
      Restored(store, caller, q1);
    } else {
      assert after[caller] == q2 && Entries(q2, section)[0] == entry;
      assert Entries(store[caller], section)[0].id != entry.id;
    }
  }

  /** Two additions in a row: the second entry ends up before the first. */
  lemma AddTwiceNewestFirst(store: Store, caller: UserId, section: Section, first: Entry, second: Entry)
    requires caller in store
    ensures Prepend(store, caller, section, first).Ok?
    ensures var once := Prepend(store, caller, section, first).value.state;
      var twice := Prepend(once, caller, section, second);
      twice.Ok? && Entries(twice.value.body, section) == [second, first] + Entries(store[caller], section)
  {
    var es := Entries(store[caller], section);
    var once := Prepend(store, caller, section, first).value.state;
    var twice := Prepend(once, caller, section, second);
    assert Entries(once[caller], section) == [first] + es;
    assert Entries(twice.value.body, section) == [second] + ([first] + es);
  }

  /** Adding with a fresh id keeps the ids of the list unique. */
  lemma PrependKeepsUniqueIds(store: Store, caller: UserId, section: Section, entry: Entry)
    requires caller in store
    requires UniqueIds(Entries(store[caller], section))
    requires forall k :: 0 <= k < |Entries(store[caller], section)| ==> Entries(store[caller], section)[k].id != entry.id
    ensures UniqueIds(Entries(Prepend(store, caller, section, entry).value.body, section))
  {
    var es := Entries(store[caller], section);
    var added := Entries(Prepend(store, caller, section, entry).value.body, section);
    assert added == [entry] + es;
    forall i, j | 0 <= i < j < |added| ensures added[i].id != added[j].id {
      assert added[j] == es[j - 1];
      if i > 0 {
        assert added[i] == es[i - 1];
      }
    }
  }

  /** Cutting one entry out of a list with unique ids leaves unique ids. */
  lemma CutKeepsUniqueIds(es: seq<Entry>, k: nat)
    requires k < |es| && UniqueIds(es)
    ensures UniqueIds(es[..k] + es[k + 1..])
  {
    var rest := es[..k] + es[k + 1..];
    forall i, j | 0 <= i < j < |rest| ensures rest[i].id != rest[j].id {
      var i' := if i < k then i else i + 1;
      var j' := if j < k then j else j + 1;
      assert rest[i] == es[i'] && rest[j] == es[j'];
    }
  }

  /** Removing an entry by id keeps the ids of the list unique. */
  lemma RemoveByIdKeepsUniqueIds(store: Store, caller: UserId, section: Section, id: EntryId)
    requires caller in store
    requires UniqueIds(Entries(store[caller], section))
    ensures RemoveById(store, caller, section, id).Ok? ==>
      UniqueIds(Entries(RemoveById(store, caller, section, id).value.body, section))
  {
    var es := Entries(store[caller], section);
    var r := RemoveById(store, caller, section, id);
    if r.Ok? {
      CutKeepsUniqueIds(es, EntryIndex(es, id));
    }
  }
}
