/** University repository: paginated listing filtered by country, status and
    search, lookup by id and slug, the universities of one country, and
    create / update (both checking that the country exists) / delete. */
module Universities {
  import opened Wrappers
  import opened Errors
  import opened Schema
  import opened Tables
  import opened DbSchema
  import opened Fields
  import opened Query
  import opened Text
  import opened Store

  /** The columns a search looks in: the four names and the slug. */
  function SearchColumns(u: University): seq<string>
  {
    Variants(u.name) + [u.slug]
  }

  predicate UniversityMatches(q: UniversitiesQuery, r: Row<University>)
  {
    && (q.countryId.None? || r.val.countryId == q.countryId.value)
    && (q.status.None? || r.val.status == q.status.value)
    && SearchHit(q.search, SearchColumns(r.val))
  }

  function UniversityFilter(q: UniversitiesQuery): Row<University> -> bool
  {
    (r: Row<University>) => UniversityMatches(q, r)
  }

  /** One page of the universities matching every given filter, newest
      first, with the number of matches over all pages: the rows whose
      newest-first positions among the matches are those of the requested
      page. */
  function GetUniversities(rows: seq<Row<University>>, q: UniversitiesQuery): (r: ListResult<University>)
    requires Chrono(rows)
    ensures r.page == q.pagination.page && r.limit == q.pagination.limit
    ensures r.total == CountWhere(rows, UniversityFilter(q))
    ensures |r.data| <= q.pagination.limit
    ensures forall x | x in r.data :: x in rows && UniversityMatches(q, x)
    ensures NewestFirstOrder(r.data)
    ensures HoldsPage(rows, UniversityFilter(q), q.pagination, r.data)
  {
    ListPage(rows, UniversityFilter(q), q.pagination)
  }

  function GetUniversityById(rows: seq<Row<University>>, id: int): (r: Option<Row<University>>)
    ensures r.None? <==> !HasId(rows, id)
    ensures r.Some? ==> r.value in rows && r.value.id == id
  {
    Find(rows, id)
  }

  function HasSlug(slug: string): Row<University> -> bool
  {
    (r: Row<University>) => r.val.slug == slug
  }

  /** Lookup by slug; a university of either status is found. */
  function GetUniversityBySlug(rows: seq<Row<University>>, slug: string): (r: Option<Row<University>>)
    ensures r.None? <==> !KeyTaken(rows, UniversitySlugOf, slug)
    ensures r.Some? ==> r.value in rows && r.value.val.slug == slug
  {
    First(rows, HasSlug(slug))
  }

  function InCountry(countryId: int): Row<University> -> bool
  {
    (r: Row<University>) => r.val.countryId == countryId
  }

  /** Every university of one country, of either status, newest first. */
  function GetUniversitiesByCountry(rows: seq<Row<University>>, countryId: int): (r: seq<Row<University>>)
    requires Chrono(rows)
    ensures forall x | x in r :: x in rows && x.val.countryId == countryId
    ensures forall x | x in rows && x.val.countryId == countryId :: x in r
    ensures NewestFirstOrder(r)
  {
    NewestFirst(Where(rows, InCountry(countryId)))
  }

  /** The row a create stores: names, slug and country as given, status
      ACTIVE unless given, the gallery as the given list, every omitted or
      null optional column NULL. */
  function NewUniversity(input: CreateUniversityInput): (u: University)
    ensures u.name == input.name && u.slug == input.slug && u.countryId == input.countryId
    ensures u.status == input.status.GetOr(Active)
    ensures u.globalRanking == OrNull(input.globalRanking) && u.localRanking == OrNull(input.localRanking)
    ensures u.galleryImages == OrNull(input.galleryImages) && u.imageUrl == OrNull(input.imageUrl)
    ensures u.teachingLanguage == LocOrNull(input.teachingLanguage)
    ensures u.description == LocOrNull(input.description)
    ensures u.metaTitle == LocOrNull(input.metaTitle) && u.metaDescription == LocOrNull(input.metaDescription)
  {
    University(input.name, input.slug, input.countryId,
               OrNull(input.globalRanking), OrNull(input.localRanking),
               LocOrNull(input.teachingLanguage), LocOrNull(input.description),
               OrNull(input.imageUrl), OrNull(input.galleryImages), input.status.GetOr(Active),
               LocOrNull(input.metaTitle), LocOrNull(input.metaDescription))
  }

  function ApplyUniversityPatch(u: University, p: UpdateUniversityInput): University
  {
    University(LocPatch(p.name, u.name), Patch(p.slug, u.slug), Patch(p.countryId, u.countryId),
               Patch(p.globalRanking, u.globalRanking), Patch(p.localRanking, u.localRanking),
               LocPatch(p.teachingLanguage, u.teachingLanguage), LocPatch(p.description, u.description),
               Patch(p.imageUrl, u.imageUrl), Patch(p.galleryImages, u.galleryImages),
               Patch(p.status, u.status),
               LocPatch(p.metaTitle, u.metaTitle), LocPatch(p.metaDescription, u.metaDescription))
  }

  function NoUniversityChanges(id: int): UpdateUniversityInput
  {
    UpdateUniversityInput(id, LocOmitted(), None, None, None, None, LocOmitted(), LocOmitted(),
                          None, None, None, LocOmitted(), LocOmitted())
  }

  /** An update naming no field leaves every column as it was, repeating an
      update changes nothing further, and a column the update does not name
      keeps its value. */
  lemma UniversityPatchLaws(u: University, p: UpdateUniversityInput)
    ensures ApplyUniversityPatch(u, NoUniversityChanges(p.id)) == u
    ensures ApplyUniversityPatch(ApplyUniversityPatch(u, p), p) == ApplyUniversityPatch(u, p)
    ensures p.countryId.None? ==> ApplyUniversityPatch(u, p).countryId == u.countryId
    ensures p.galleryImages == Some(None) ==> ApplyUniversityPatch(u, p).galleryImages.None?
  {
    LocPatchLaws(p.name, LocOmitted(), u.name);
    LocPatchLaws(p.teachingLanguage, LocOmitted(), u.teachingLanguage);
    LocPatchLaws(p.description, LocOmitted(), u.description);
    LocPatchLaws(p.metaTitle, LocOmitted(), u.metaTitle);
    LocPatchLaws(p.metaDescription, LocOmitted(), u.metaDescription);
  }

  /** Some university–major link names the university. */
  predicate OffersMajors(ums: seq<Row<UniversityMajor>>, id: int)
  {
    exists m | m in ums :: m.val.universityId == id
  }

  // ------------------------------------------------------------- writes

  /** What `createUniversity` does when the write is stamped `now`: an
      unknown country is refused first, then a slug already in use; otherwise
      the new row is appended and returned. Nothing is written on failure. */
  function CreateUniversitySpec(t: Table<University>, cs: seq<Row<Country>>, input: CreateUniversityInput, now: nat)
    : (Result<Row<University>, Error>, Table<University>)
  {
    if !HasId(cs, input.countryId) then (Failure(MissingReference(CountryEntity, input.countryId)), t)
    else if KeyTaken(t.rows, UniversitySlugOf, input.slug) then (Failure(UniqueViolation(UniversitySlug)), t)
    else (Success(Row(t.nextId, now, now, NewUniversity(input))), Insert(t, NewUniversity(input), now))
  }

  /** What `updateUniversity` does: an unknown id is "not found"; a country
      id that is given must exist; a new slug held by another university is
      refused; otherwise the patched row replaces the old one, stamped `now`. */
  function UpdateUniversitySpec(t: Table<University>, cs: seq<Row<Country>>, input: UpdateUniversityInput, now: nat)
    : (Result<Option<Row<University>>, Error>, Table<University>)
  {
    match Find(t.rows, input.id)
    case None => (Success(None), t)
    case Some(before) =>
      var after := ApplyUniversityPatch(before.val, input);
      if input.countryId.Some? && !HasId(cs, input.countryId.value) then
        (Failure(MissingReference(CountryEntity, input.countryId.value)), t)
      else if !KeyFreeFor(t.rows, UniversitySlugOf, after.slug, input.id) then
        (Failure(UniqueViolation(UniversitySlug)), t)
      else (Success(Some(before.(val := after, updatedAt := now))), Table(Update(t.rows, input.id, after, now), t.nextId))
  }

  /** What `deleteUniversity` does: a university that still offers a major is
      kept (the link's foreign key has no cascade); otherwise the row, if
      any, is removed and the result says whether there was one. */
  function DeleteUniversitySpec(t: Table<University>, ums: seq<Row<UniversityMajor>>, id: int): (Result<bool, Error>, Table<University>)
  {
    if OffersMajors(ums, id) then (Failure(DeleteBlocked(MajorsOfUniversity)), t)
    else (Success(HasId(t.rows, id)), Table(Remove(t.rows, id), t.nextId))
  }

  method CreateUniversity(db: Db, input: CreateUniversityInput) returns (res: Result<Row<University>, Error>)
    requires db.Valid()
    modifies db`universities, db`clock
    ensures db.Valid()
    ensures (res, db.universities) == CreateUniversitySpec(old(db.universities), db.countries.rows, input, old(db.clock) + 1)
    ensures db.clock == if res.Success? then old(db.clock) + 1 else old(db.clock)
  {
    if !HasId(db.countries.rows, input.countryId) {
      return Failure(MissingReference(CountryEntity, input.countryId));
    }
    if KeyTaken(db.universities.rows, UniversitySlugOf, input.slug) {
      return Failure(UniqueViolation(UniversitySlug));
    }
    var now := db.clock + 1;
    var u := NewUniversity(input);
    ghost var s := db.Contents();
    var inserted := Insert(db.universities, u, now);
    InsertKeepsConsistent(s, u, inserted, now);
    res := Success(Row(db.universities.nextId, now, now, u));
    db.universities, db.clock := inserted, now;
    assert db.Contents() == s.(universities := inserted, clock := now);
  }

  method UpdateUniversity(db: Db, input: UpdateUniversityInput) returns (res: Result<Option<Row<University>>, Error>)
    requires db.Valid()
    modifies db`universities, db`clock
    ensures db.Valid()
    ensures (res, db.universities) == UpdateUniversitySpec(old(db.universities), db.countries.rows, input, old(db.clock) + 1)
    ensures db.clock == if res.Success? && res.value.Some? then old(db.clock) + 1 else old(db.clock)
  {
    var found := Find(db.universities.rows, input.id);
    if found.None? {
      return Success(None);
    }
    var before := found.value;
    var after := ApplyUniversityPatch(before.val, input);
    if input.countryId.Some? && !HasId(db.countries.rows, input.countryId.value) {
      return Failure(MissingReference(CountryEntity, input.countryId.value));
    }
    if !KeyFreeFor(db.universities.rows, UniversitySlugOf, after.slug, input.id) {
      return Failure(UniqueViolation(UniversitySlug));
    }
    var now := db.clock + 1;
    ghost var s := db.Contents();
    var updated := Table(Update(db.universities.rows, input.id, after, now), db.universities.nextId);
    UpdateKeepsConsistent(s, before, after, updated, now);
    db.universities, db.clock := updated, now;
    assert db.Contents() == s.(universities := updated, clock := now);
    res := Success(Some(before.(val := after, updatedAt := now)));
  }

  method DeleteUniversity(db: Db, id: int) returns (res: Result<bool, Error>)
    requires db.Valid()
    modifies db`universities
    ensures db.Valid()
    ensures (res, db.universities) == DeleteUniversitySpec(old(db.universities), db.universityMajors.rows, id)
  {
    if OffersMajors(db.universityMajors.rows, id) {
      return Failure(DeleteBlocked(MajorsOfUniversity));
    }
    var existed := HasId(db.universities.rows, id);
    ghost var s := db.Contents();
    var remaining := Table(Remove(db.universities.rows, id), db.universities.nextId);
    RemoveKeepsConsistent(s, id, remaining);
    db.universities := remaining;
    assert db.Contents() == s.(universities := remaining, clock := s.clock);
    res := Success(existed);
  }

  // ------------------------------------------------- what the writes promise

  /** A create either fails (unknown country first, then a taken slug) and
      changes nothing, or appends exactly one row that carries the create
      mapping of the input and is found by its fresh id, while every earlier
      row is still found by its own id. */
  lemma {:induction false} CreateUniversityFacts(t: Table<University>, cs: seq<Row<Country>>, clock: nat, input: CreateUniversityInput)
    requires WellFormed(t, clock)
    ensures var (r, t') := CreateUniversitySpec(t, cs, input, clock + 1);
      && (r.Failure? <==> !HasId(cs, input.countryId) || KeyTaken(t.rows, UniversitySlugOf, input.slug))
      && (!HasId(cs, input.countryId) ==> r == Failure(MissingReference(CountryEntity, input.countryId)))
      && (r.Failure? ==> t' == t)
      && (r.Success? ==>
            && r.value.val == NewUniversity(input)
            && r.value.val.countryId == input.countryId
            && !HasId(t.rows, r.value.id)
            && GetUniversityById(t'.rows, r.value.id) == Some(r.value)
            && forall x | x in t.rows :: GetUniversityById(t'.rows, x.id) == Some(x))
  {
    var (r, t') := CreateUniversitySpec(t, cs, input, clock + 1);
    if r.Success? {
      WellFormedLater(t, clock, clock + 1);
      FindAfterInsert(t, NewUniversity(input), clock + 1);
    }
  }

  /** An update of a known university changes that row only: the result is
      the patched row, with an unchanged `created_at` and a strictly later
      `updated_at`, its country exists, and every other row is as it was. */
  lemma {:induction false} UpdateUniversityFacts(t: Table<University>, cs: seq<Row<Country>>, clock: nat, input: UpdateUniversityInput)
    requires WellFormed(t, clock) && UniversityRefsOk(t.rows, cs)
    ensures var (r, t') := UpdateUniversitySpec(t, cs, input, clock + 1);
      && (!HasId(t.rows, input.id) ==> r == Success(None) && t' == t)
      && (r.Failure? ==> t' == t)
      && (HasId(t.rows, input.id) && input.countryId.Some? && !HasId(cs, input.countryId.value) ==>
            r == Failure(MissingReference(CountryEntity, input.countryId.value)))
      && (r.Success? && r.value.Some? ==>
            var before := GetUniversityById(t.rows, input.id).value;
            && r.value.value.val == ApplyUniversityPatch(before.val, input)
            && r.value.value.createdAt == before.createdAt
            && r.value.value.updatedAt > before.updatedAt
            && HasId(cs, r.value.value.val.countryId)
            && GetUniversityById(t'.rows, input.id) == r.value
            && forall x | x in t.rows && x.id != input.id :: GetUniversityById(t'.rows, x.id) == Some(x))
  {
    var (r, t') := UpdateUniversitySpec(t, cs, input, clock + 1);
    if r.Success? && r.value.Some? {
      var before := Find(t.rows, input.id).value;
      FindAfterUpdate(t.rows, before, ApplyUniversityPatch(before.val, input), clock + 1);
    }
  }

  /** A delete that is not blocked leaves no university with that id and
      every other one in place; deleting again reports that nothing was
      removed. A university that offers a major is never deleted. */
  lemma {:induction false} DeleteUniversityFacts(t: Table<University>, ums: seq<Row<UniversityMajor>>, id: int)
    requires Chrono(t.rows)
    ensures var (r, t') := DeleteUniversitySpec(t, ums, id);
      && (r.Failure? <==> OffersMajors(ums, id))
      && (r.Failure? ==> t' == t)
      && (r.Success? ==>
            && r.value == GetUniversityById(t.rows, id).Some?
            && GetUniversityById(t'.rows, id).None?
            && DeleteUniversitySpec(t', ums, id) == (Success(false), t')
            && forall x | x in t.rows && x.id != id :: GetUniversityById(t'.rows, x.id) == Some(x))
  {
    var (r, t') := DeleteUniversitySpec(t, ums, id);
    if r.Success? {
      FindAfterRemove(t.rows, id);
    }
  }

  /** The universities of a country are exactly its rows: none of another
      country and none missing. */
  lemma ByCountryIsComplete(rows: seq<Row<University>>, countryId: int, x: Row<University>)
    requires Chrono(rows) && x in rows
    ensures x in GetUniversitiesByCountry(rows, countryId) <==> x.val.countryId == countryId
  {
  }

  // ------------------------------------------- the store invariant survives

  lemma InsertKeepsConsistent(s: Snapshot, v: University, t: Table<University>, now: nat)
    requires Consistent(s) && HasId(s.countries.rows, v.countryId)
    requires !KeyTaken(s.universities.rows, UniversitySlugOf, v.slug)
    requires now == s.clock + 1 && t == Insert(s.universities, v, now)
    ensures Consistent(s.(universities := t, clock := now))
  {
    WellFormedLater(s.universities, s.clock, now);
    InsertWellFormed(s.universities, v, now);
    InsertKeepsUnique(s.universities, UniversitySlugOf, v, now);
    InsertKeepsIds(s.universities, v, now);
    UniversityMajorRefsKept(s.universityMajors.rows, s.universities.rows, t.rows, s.majors.rows, s.majors.rows);
    UniversitiesReplaced(s, t, now);
  }

  lemma UpdateKeepsConsistent(s: Snapshot, before: Row<University>, v: University, t: Table<University>, now: nat)
    requires Consistent(s) && before in s.universities.rows
    requires HasId(s.countries.rows, v.countryId)
    requires KeyFreeFor(s.universities.rows, UniversitySlugOf, v.slug, before.id)
    requires now == s.clock + 1 && t == Table(Update(s.universities.rows, before.id, v, now), s.universities.nextId)
    ensures Consistent(s.(universities := t, clock := now))
  {
    WellFormedLater(s.universities, s.clock, now);
    UpdateWellFormed(s.universities, before.id, v, now);
    UpdateKeepsUnique(s.universities.rows, UniversitySlugOf, before.id, v, now);
    UpdateKeepsIds(s.universities.rows, before.id, v, now);
    UpdateMembers(s.universities.rows, before.id, v, now);
    UniversityMajorRefsKept(s.universityMajors.rows, s.universities.rows, t.rows, s.majors.rows, s.majors.rows);
    UniversitiesReplaced(s, t, now);
  }

  lemma RemoveKeepsConsistent(s: Snapshot, id: int, t: Table<University>)
    requires Consistent(s) && !OffersMajors(s.universityMajors.rows, id)
    requires t == Table(Remove(s.universities.rows, id), s.universities.nextId)
    ensures Consistent(s.(universities := t, clock := s.clock))
  {
    RemoveWellFormed(s.universities, id, s.clock);
    RemoveKeepsUnique(s.universities.rows, UniversitySlugOf, id);
    RemoveKeepsOtherIds(s.universities.rows, id);
    UniversitiesReplaced(s, t, s.clock);
  }
}
