/** The CRM service: contact search, creation and editing, lifecycle changes
    checked against the transition table (with automatic enrolment as a
    student), and soft deletion. Every mutator first looks the contact up
    by its key and the calling instructor. */
module CrmService {
  import opened Common
  import opened Time
  import opened CrmTypes
  import opened Records
  import opened Database
  import opened Ordering

  datatype CrmError = ContactNotFound | IllegalTransition(from: Lifecycle, to: Lifecycle)

  /** The stage names of a list of stages, in order. */
  function StageNames(ls: seq<Lifecycle>): (r: seq<string>)
    ensures |r| == |ls| && forall i :: 0 <= i < |ls| ==> r[i] == StageName(ls[i])
  {
    seq(|ls|, i requires 0 <= i < |ls| => StageName(ls[i]))
  }

  /** The `Error` message each failure throws; an illegal change lists the
      stages that were allowed. */
  function ErrorMessage(e: CrmError): string
  {
    match e
    case ContactNotFound => "Contact not found"
    case IllegalTransition(f, t) =>
      "Cannot transition from '" + StageName(f) + "' to '" + StageName(t) + "'. Allowed: " + Allowed(f)
  }

  /** The allowed next stages, comma-separated in the table's order. */
  function Allowed(f: Lifecycle): string
  {
    Join(StageNames(Transitions(f)), ", ")
  }

  // ---------------------------------------------------------------------------
  // getContactOrThrow
  // ---------------------------------------------------------------------------

  /** `getContactOrThrow(contactId, instructorId)`: the contact with that key
      that belongs to that instructor. */
  function ContactOf(contacts: seq<Contact>, contactId: Id, instructorId: Id): (r: Result<Contact, CrmError>)
    ensures r.Err? <==>
      forall i :: 0 <= i < |contacts| ==> contacts[i].id != contactId || contacts[i].instructorId != Some(instructorId)
    ensures r.Err? ==> r.error == ContactNotFound
    ensures r.Ok? ==> r.value in contacts && r.value.id == contactId && r.value.instructorId == Some(instructorId)
  {
    match Find(contacts, (c: Contact) => c.id == contactId && c.instructorId == Some(instructorId))
    case None => Err(ContactNotFound)
    case Some(c) => Ok(c)
  }

  /** The contacts with the contact's stage set and its update time refreshed. */
  function Relabel(contacts: seq<Contact>, contactId: Id, stage: Lifecycle, now: Instant): seq<Contact>
  {
    UpdateWhere(contacts, (c: Contact) => c.id == contactId,
                (c: Contact) => c.(lifecycle := stage, updatedAt := now))
  }

  /** A relabelling changes the addressed contact's stage and update time
      and nothing else. */
  lemma RelabelChangesOnlyTarget(contacts: seq<Contact>, contactId: Id, stage: Lifecycle, now: Instant)
    ensures var after := Relabel(contacts, contactId, stage, now);
      |after| == |contacts|
      && forall i :: 0 <= i < |contacts| ==>
           if contacts[i].id == contactId
           then after[i].lifecycle == stage && after[i] == contacts[i].(lifecycle := stage, updatedAt := now)
           else after[i] == contacts[i]
  {}

  /** With keys unique, the row `.returning()` yields after a relabelling is
      the looked-up contact with the new stage and update time. */
  lemma RelabelledRowIsReturned(contacts: seq<Contact>, contactId: Id, instructorId: Id, stage: Lifecycle,
                                now: Instant)
    requires UniqueContactIds(contacts)
    requires ContactOf(contacts, contactId, instructorId).Ok?
    ensures var after := Relabel(contacts, contactId, stage, now);
      forall i :: 0 <= i < |after| && after[i].id == contactId ==>
        after[i] == ContactOf(contacts, contactId, instructorId).value.(lifecycle := stage, updatedAt := now)
  {
    var c := ContactOf(contacts, contactId, instructorId).value;
    var k :| 0 <= k < |contacts| && contacts[k] == c;
    forall i | 0 <= i < |contacts| && contacts[i].id == contactId ensures contacts[i] == c {
      assert i == k;
    }
  }

  // ---------------------------------------------------------------------------
  // searchContacts
  // ---------------------------------------------------------------------------

  datatype SearchFilters = SearchFilters(
    lifecycle: Option<Lifecycle>, search: Option<string>, limit: Option<int>, offset: Option<int>)

  const DEFAULT_LIMIT: int := 20
  const MAX_LIMIT: int := 100
  const DEFAULT_OFFSET: int := 0

  function SearchLimit(f: SearchFilters): int { Min(f.limit.GetOr(DEFAULT_LIMIT), MAX_LIMIT) }

  function SearchOffset(f: SearchFilters): int { f.offset.GetOr(DEFAULT_OFFSET) }

  /** `ILIKE '%term%'` on a nullable column: a null column never matches. */
  predicate FieldMatches(field: Option<string>, term: string)
  {
    field.Some? && Contains(Lower(field.value), Lower(term))
  }

  predicate MatchesSearch(c: Contact, term: string)
  {
    FieldMatches(c.firstName, term) || FieldMatches(c.lastName, term)
    || FieldMatches(c.email, term) || FieldMatches(c.phone, term)
  }

  /** The row condition the query ends up with. Each filter replaces the
      condition before it, so a non-empty search term drops the lifecycle
      filter; both keep the instructor condition. */
  predicate Selected(c: Contact, instructorId: Id, f: SearchFilters)
  {
    c.instructorId == Some(instructorId)
    && if f.search.Some? && f.search.value != [] then MatchesSearch(c, f.search.value)
       else if f.lifecycle.Some? then c.lifecycle == f.lifecycle.value
       else true
  }

  function Selection(instructorId: Id, f: SearchFilters): Contact -> bool
  {
    (c: Contact) => Selected(c, instructorId, f)
  }

  function UpdatedAt(c: Contact): int { c.updatedAt }

  /** `searchContacts(instructorId, filters)`: the selected contacts, most
      recently updated first, then a window of them; None when the database
      refuses a negative limit or offset. */
  function SearchContacts(contacts: seq<Contact>, instructorId: Id, f: SearchFilters): Option<seq<Contact>>
  {
    Page(SortDesc(Filter(contacts, Selection(instructorId, f)), UpdatedAt), SearchLimit(f), SearchOffset(f))
  }

  /** The window defaults to 20 rows from the start, and is never wider than 100. */
  lemma SearchWindow(f: SearchFilters)
    ensures SearchLimit(f) <= MAX_LIMIT
    ensures f.limit.None? ==> SearchLimit(f) == DEFAULT_LIMIT
    ensures f.limit.Some? && f.limit.value <= MAX_LIMIT ==> SearchLimit(f) == f.limit.value
    ensures f.offset.None? ==> SearchOffset(f) == 0
  {}

  /** A search returns only the instructor's contacts that meet the filter,
      at most the limit of them. */
  lemma SearchResults(contacts: seq<Contact>, instructorId: Id, f: SearchFilters)
    requires SearchContacts(contacts, instructorId, f).Some?
    ensures var page := SearchContacts(contacts, instructorId, f).value;
      && (forall i :: 0 <= i < |page| ==> page[i] in contacts && Selected(page[i], instructorId, f))
      && |page| <= SearchLimit(f) <= MAX_LIMIT
  {
    var selected := Filter(contacts, Selection(instructorId, f));
    var sorted := SortDesc(selected, UpdatedAt);
    var page := SearchContacts(contacts, instructorId, f).value;
    forall i | 0 <= i < |page| ensures page[i] in contacts && Selected(page[i], instructorId, f) {
      assert page[i] == sorted[SearchOffset(f) + i];
      assert sorted[SearchOffset(f) + i] in multiset(selected);
      FilterMember(contacts, Selection(instructorId, f), page[i]);
    }
  }

  /** A search lists the most recently updated contacts first. */
  lemma SearchOrdered(contacts: seq<Contact>, instructorId: Id, f: SearchFilters)
    requires SearchContacts(contacts, instructorId, f).Some?
    ensures SortedDesc(SearchContacts(contacts, instructorId, f).value, UpdatedAt)
  {
    var sorted := SortDesc(Filter(contacts, Selection(instructorId, f)), UpdatedAt);
    SortDescSorted(Filter(contacts, Selection(instructorId, f)), UpdatedAt);
    var page := SearchContacts(contacts, instructorId, f).value;
    forall i, j | 0 <= i < j < |page| ensures UpdatedAt(page[i]) >= UpdatedAt(page[j]) {
      assert page[i] == sorted[SearchOffset(f) + i] && page[j] == sorted[SearchOffset(f) + j];
    }
  }

  /** From offset 0, with a limit that covers every matching contact, a
      search returns all of them. */
  lemma SearchComplete(contacts: seq<Contact>, instructorId: Id, f: SearchFilters)
    requires SearchOffset(f) == 0
    requires |Filter(contacts, Selection(instructorId, f))| <= SearchLimit(f)
    ensures SearchContacts(contacts, instructorId, f).Some?
    ensures multiset(SearchContacts(contacts, instructorId, f).value)
         == multiset(Filter(contacts, Selection(instructorId, f)))
  {
    var selected := Filter(contacts, Selection(instructorId, f));
    var sorted := SortDesc(selected, UpdatedAt);
    if |selected| == 0 {
      assert SearchContacts(contacts, instructorId, f).value == [];
    } else {
      assert SearchContacts(contacts, instructorId, f).value == sorted;
    }
  }

  /** With a non-empty search term the lifecycle filter has no effect. */
  lemma SearchOverridesLifecycle(contacts: seq<Contact>, instructorId: Id, f: SearchFilters)
    requires f.search.Some? && f.search.value != []
    ensures SearchContacts(contacts, instructorId, f) == SearchContacts(contacts, instructorId, f.(lifecycle := None))
  {
    FilterAgree(contacts, Selection(instructorId, f), Selection(instructorId, f.(lifecycle := None)));
  }

  // ---------------------------------------------------------------------------
  // createContact
  // ---------------------------------------------------------------------------

  /** The profile a new contact is linked to: the first profile with the
      contact's e-mail address, when an address is given. */
  function LinkedProfile(profiles: seq<Profile>, email: Option<string>): Option<Id>
  {
    if email.None? || email.value == [] then None
    else match Find(profiles, (p: Profile) => p.email == email.value)
      case Some(p) => Some(p.id)
      case None => None
  }

  /** A contact is linked exactly when a non-empty e-mail address is given
      and some profile has it, and then to a profile that has it. */
  lemma LinkedProfileRules(profiles: seq<Profile>, email: Option<string>)
    ensures LinkedProfile(profiles, email).Some? <==>
      email.Some? && email.value != [] && exists i :: 0 <= i < |profiles| && profiles[i].email == email.value
    ensures LinkedProfile(profiles, email).Some? ==>
      exists p :: p in profiles && p.id == LinkedProfile(profiles, email).value && Some(p.email) == email
  {}

  /** The row a new contact is inserted as: a prospect of the instructor. */
  function NewContact(instructorId: Id, data: ContactFields, profileId: Option<Id>, now: Instant): Contact
  {
    Contact(0, Some(instructorId), profileId, data.firstName, data.lastName, data.email, data.phone,
            data.source, data.notes, Prospect, now)
  }

  function CreatedAudit(actor: Id, contactId: Id, instructorId: Id, data: ContactFields): AuditEntry
  {
    AuditEntry(Some(actor), "CONTACT_CREATED", "contact", contactId, ContactCreatedPayload(instructorId, data.email))
  }

  /** `createContact(instructorId, data, actorProfileId)`. */
  method CreateContact(db: Db, instructorId: Id, data: ContactFields, actorProfileId: Id, env: Env)
    returns (contact: Contact)
    requires db.Valid()
    modifies db`contacts, db`audit, db`nextId
    ensures db.Valid()
    ensures contact == NewContact(instructorId, data, LinkedProfile(db.profiles, data.email), env.now)
                         .(id := old(db.nextId))
    ensures forall i :: 0 <= i < |old(db.contacts)| ==> old(db.contacts)[i].id != contact.id
    ensures db.contacts == old(db.contacts) + [contact]
    ensures db.audit == old(db.audit) + [CreatedAudit(actorProfileId, contact.id, instructorId, data)]
  {
    var linked := LinkedProfile(db.profiles, data.email);
    var row := NewContact(instructorId, data, linked, env.now);
    var id := db.InsertContact(row);
    contact := row.(id := id);
    db.audit := db.audit + [CreatedAudit(actorProfileId, id, instructorId, data)];
  }

  // ---------------------------------------------------------------------------
  // updateContact
  // ---------------------------------------------------------------------------

  /** A field the request gives replaces the stored one; one it leaves out keeps it. */
  function Overlay(given: Option<string>, stored: Option<string>): Option<string>
  {
    if given.Some? then given else stored
  }

  /** The contact with the request's fields written over it. */
  function Merge(c: Contact, data: ContactFields, now: Instant): Contact
  {
    c.(firstName := Overlay(data.firstName, c.firstName), lastName := Overlay(data.lastName, c.lastName),
       email := Overlay(data.email, c.email), phone := Overlay(data.phone, c.phone),
       notes := Overlay(data.notes, c.notes), source := Overlay(data.source, c.source), updatedAt := now)
  }

  function Edit(contacts: seq<Contact>, contactId: Id, data: ContactFields, now: Instant): seq<Contact>
  {
    UpdateWhere(contacts, (c: Contact) => c.id == contactId, (c: Contact) => Merge(c, data, now))
  }

  /** With keys unique, the row `.returning()` yields after an edit is the
      looked-up contact with the fields merged in. */
  lemma EditedRowIsReturned(contacts: seq<Contact>, contactId: Id, instructorId: Id, data: ContactFields,
                            now: Instant)
    requires UniqueContactIds(contacts)
    requires ContactOf(contacts, contactId, instructorId).Ok?
    ensures var after := Edit(contacts, contactId, data, now);
      forall i :: 0 <= i < |after| && after[i].id == contactId ==>
        after[i] == Merge(ContactOf(contacts, contactId, instructorId).value, data, now)
  {
    var c := ContactOf(contacts, contactId, instructorId).value;
    var k :| 0 <= k < |contacts| && contacts[k] == c;
    forall i | 0 <= i < |contacts| && contacts[i].id == contactId ensures contacts[i] == c {
      assert i == k;
    }
  }

  /** Writing the same fields twice is writing them once; a request with no
      fields only refreshes the update time; key, owner, link and stage are
      never touched. */
  lemma MergeRules(c: Contact, data: ContactFields, now: Instant)
    ensures Merge(Merge(c, data, now), data, now) == Merge(c, data, now)
    ensures data == ContactFields(None, None, None, None, None, None) ==> Merge(c, data, now) == c.(updatedAt := now)
    ensures var m := Merge(c, data, now);
      m.id == c.id && m.instructorId == c.instructorId && m.profileId == c.profileId
      && m.lifecycle == c.lifecycle
      && (data.email.Some? ==> m.email == data.email) && (data.email.None? ==> m.email == c.email)
  {}

  /** `updateContact(contactId, instructorId, data, actorProfileId)`. */
  method UpdateContact(db: Db, contactId: Id, instructorId: Id, data: ContactFields, actorProfileId: Id, env: Env)
    returns (r: Result<Contact, CrmError>)
    requires db.Valid()
    modifies db`contacts, db`audit
    ensures db.Valid()
    ensures match ContactOf(old(db.contacts), contactId, instructorId)
      case Err(e) => r == Err(e) && db.contacts == old(db.contacts) && db.audit == old(db.audit)
      case Ok(existing) =>
        && db.contacts == Edit(old(db.contacts), contactId, data, env.now)
        && db.audit == old(db.audit) + [AuditEntry(Some(actorProfileId), "CONTACT_UPDATED", "contact", contactId,
                                                   ContactUpdatedPayload(data))]
        && r == Ok(Merge(existing, data, env.now))
  {
    var found := ContactOf(db.contacts, contactId, instructorId);
    if found.Err? {
      return Err(found.error);
    }
    db.SetContacts(Edit(db.contacts, contactId, data, env.now));
    db.audit := db.audit + [AuditEntry(Some(actorProfileId), "CONTACT_UPDATED", "contact", contactId,
                                       ContactUpdatedPayload(data))];
    r := Ok(Merge(found.value, data, env.now));
  }

  // ---------------------------------------------------------------------------
  // enrollContact
  // ---------------------------------------------------------------------------

  /** Enrolment creates a student exactly when the contact is linked to a
      profile that has no student yet. */
  predicate Enrolls(students: seq<Student>, c: Contact)
  {
    c.profileId.Some? && Find(students, (s: Student) => s.profileId == c.profileId.value).None?
  }

  function NewStudent(profileId: Id, instructorId: Id, now: Instant): Student
  {
    Student(0, profileId, instructorId, true, Some(now))
  }

  /** The audit of an enrolment is filed under the profile's key. */
  function EnrolledAudit(actor: Id, c: Contact, instructorId: Id): AuditEntry
    requires c.profileId.Some?
  {
    AuditEntry(Some(actor), "STUDENT_ENROLLED", "student", c.profileId.value, StudentEnrolledPayload(c.id, instructorId))
  }

  /** `enrollContact(contact, instructorId, actorProfileId)`. */
  method EnrollContact(db: Db, contact: Contact, instructorId: Id, actorProfileId: Id, env: Env)
    requires db.Valid()
    modifies db`students, db`audit, db`nextId
    ensures db.Valid()
    ensures Enrolls(old(db.students), contact) ==>
      && db.students == old(db.students) + [NewStudent(contact.profileId.value, instructorId, env.now).(id := old(db.nextId))]
      && db.audit == old(db.audit) + [EnrolledAudit(actorProfileId, contact, instructorId)]
    ensures !Enrolls(old(db.students), contact) ==>
      db.students == old(db.students) && db.audit == old(db.audit) && db.nextId == old(db.nextId)
  {
    if contact.profileId.None? {
      return;
    }
    var existing := Find(db.students, (s: Student) => s.profileId == contact.profileId.value);
    if existing.Some? {
      return;
    }
    var _ := db.InsertStudent(NewStudent(contact.profileId.value, instructorId, env.now));
    db.audit := db.audit + [EnrolledAudit(actorProfileId, contact, instructorId)];
  }

  /** Enrolment never gives a profile a second student record. */
  lemma EnrolmentKeepsOneStudentPerProfile(students: seq<Student>, c: Contact, instructorId: Id, id: Id,
                                           now: Instant)
    requires OneStudentPerProfile(students) && Enrolls(students, c)
    ensures OneStudentPerProfile(students + [NewStudent(c.profileId.value, instructorId, now).(id := id)])
  {
    var after := students + [NewStudent(c.profileId.value, instructorId, now).(id := id)];
    forall i, j | 0 <= i < j < |after| ensures after[i].profileId != after[j].profileId {
      if j == |students| {
        assert after[i] == students[i];
      }
    }
  }

  // ---------------------------------------------------------------------------
  // advanceLifecycle
  // ---------------------------------------------------------------------------

  /** Why a stage change is refused, if it is: an unknown contact, or a
      stage the transition table does not allow from the current one. */
  function AdvanceRefusal(found: Result<Contact, CrmError>, newStage: Lifecycle): Option<CrmError>
  {
    if found.Err? then Some(found.error)
    else if !CanTransition(found.value.lifecycle, newStage) then Some(IllegalTransition(found.value.lifecycle, newStage))
    else None
  }

  function LifecycleAudit(actor: Id, contactId: Id, from: Lifecycle, to: Lifecycle): AuditEntry
  {
    AuditEntry(Some(actor), "LIFECYCLE_CHANGED", "contact", contactId, LifecycleChangedPayload(from, to))
  }

  /** `advanceLifecycle(contactId, instructorId, newStage, actorProfileId)`.
      A change to `enrolled` then enrols the contact as it was before the
      change. */
  method AdvanceLifecycle(db: Db, contactId: Id, instructorId: Id, newStage: Lifecycle, actorProfileId: Id, env: Env)
    returns (r: Result<Contact, CrmError>)
    requires db.Valid()
    modifies db`contacts, db`students, db`audit, db`nextId
    ensures db.Valid()
    ensures var found := ContactOf(old(db.contacts), contactId, instructorId);
      match AdvanceRefusal(found, newStage)
      case Some(e) =>
        r == Err(e) && db.contacts == old(db.contacts) && db.students == old(db.students)
        && db.audit == old(db.audit) && db.nextId == old(db.nextId)
      case None =>
        var c := found.value;
        var changed := old(db.audit) + [LifecycleAudit(actorProfileId, contactId, c.lifecycle, newStage)];
        && db.contacts == Relabel(old(db.contacts), contactId, newStage, env.now)
        && r == Ok(c.(lifecycle := newStage, updatedAt := env.now))
        && if newStage == Enrolled && Enrolls(old(db.students), c) then
             && db.students == old(db.students) + [NewStudent(c.profileId.value, instructorId, env.now).(id := old(db.nextId))]
             && db.audit == changed + [EnrolledAudit(actorProfileId, c, instructorId)]
           else db.students == old(db.students) && db.audit == changed
  {
    var found := ContactOf(db.contacts, contactId, instructorId);
    var refusal := AdvanceRefusal(found, newStage);
    if refusal.Some? {
      return Err(refusal.value);
    }
    var c := found.value;
    db.SetContacts(Relabel(db.contacts, contactId, newStage, env.now));
    db.audit := db.audit + [LifecycleAudit(actorProfileId, contactId, c.lifecycle, newStage)];
    if newStage == Enrolled {
      EnrollContact(db, c, instructorId, actorProfileId, env);
    }
    r := Ok(c.(lifecycle := newStage, updatedAt := env.now));
  }

  /** A stage change goes through exactly when the contact is the
      instructor's and the table allows the change; so it never repeats the
      current stage, and leaves `completed` only for `inactive`. */
  lemma AdvanceRules(contacts: seq<Contact>, contactId: Id, instructorId: Id, newStage: Lifecycle)
    ensures var found := ContactOf(contacts, contactId, instructorId);
      && (AdvanceRefusal(found, newStage).None? <==>
            exists c :: c in contacts && c.id == contactId && c.instructorId == Some(instructorId)
                        && c == found.value && CanTransition(c.lifecycle, newStage))
      && (found.Ok? && found.value.lifecycle == newStage ==>
            AdvanceRefusal(found, newStage) == Some(IllegalTransition(newStage, newStage)))
      && (found.Ok? && found.value.lifecycle == Lifecycle.Completed && AdvanceRefusal(found, newStage).None? ==>
            newStage == Inactive)
  {}

  /** The list of allowed stages a refusal quotes, for three stages. */
  lemma AllowedLists()
    ensures Allowed(Prospect) == "lead, inactive"
    ensures Allowed(Lifecycle.Completed) == "inactive"
    ensures Allowed(Inactive) == "prospect"
  {
    assert StageNames([Lead, Inactive]) == ["lead", "inactive"];
    assert Join(["lead", "inactive"], ", ") == "lead" + ", " + Join(["inactive"], ", ");
    assert StageNames([Inactive]) == ["inactive"];
    assert StageNames([Prospect]) == ["prospect"];
  }

  // ---------------------------------------------------------------------------
  // softDeleteContact
  // ---------------------------------------------------------------------------

  /** `softDeleteContact(contactId, instructorId, actorProfileId)`: the
      contact becomes `inactive`, from whatever stage. */
  method SoftDeleteContact(db: Db, contactId: Id, instructorId: Id, actorProfileId: Id, env: Env)
    returns (r: Result<(), CrmError>)
    requires db.Valid()
    modifies db`contacts, db`audit
    ensures db.Valid()
    ensures match ContactOf(old(db.contacts), contactId, instructorId)
      case Err(e) => r == Err(e) && db.contacts == old(db.contacts) && db.audit == old(db.audit)
      case Ok(_) =>
        && r == Ok(())
        && db.contacts == Relabel(old(db.contacts), contactId, Inactive, env.now)
        && db.audit == old(db.audit) + [AuditEntry(Some(actorProfileId), "CONTACT_DELETED", "contact", contactId,
                                                   EmptyPayload)]
  {
    var found := ContactOf(db.contacts, contactId, instructorId);
    if found.Err? {
      return Err(found.error);
    }
    db.SetContacts(Relabel(db.contacts, contactId, Inactive, env.now));
    db.audit := db.audit + [AuditEntry(Some(actorProfileId), "CONTACT_DELETED", "contact", contactId, EmptyPayload)];
    r := Ok(());
  }

  /** Soft deletion bypasses the transition table: an inactive contact may
      not move to `inactive` by a stage change, yet deleting it succeeds and
      leaves it inactive. */
  lemma SoftDeleteBypassesTable(c: Contact, now: Instant)
    requires c.lifecycle == Inactive && c.instructorId.Some?
    ensures AdvanceRefusal(ContactOf([c], c.id, c.instructorId.value), Inactive) == Some(IllegalTransition(Inactive, Inactive))
    ensures ContactOf([c], c.id, c.instructorId.value).Ok?
    ensures Relabel([c], c.id, Inactive, now)[0].lifecycle == Inactive
  {
    assert ContactOf([c], c.id, c.instructorId.value) == Ok(c);
  }
}
