/** Country repository: paginated listing with status and search filters,
    lookup by id and slug, create, partial update, and a delete guarded by
    the universities and articles that reference the country. */
module Countries {
  import opened Wrappers
  import opened Errors
  import opened Schema
  import opened Tables
  import opened DbSchema
  import opened Fields
  import opened Query
  import opened Text
  import opened Store

  /** The columns a search looks in: the four names and the slug. */
  function SearchColumns(c: Country): seq<string>
  {
    Variants(c.name) + [c.slug]
  }

  predicate CountryMatches(q: CountriesQuery, r: Row<Country>)
  {
    && (q.status.None? || r.val.status == q.status.value)
    && SearchHit(q.search, SearchColumns(r.val))
  }

  function CountryFilter(q: CountriesQuery): Row<Country> -> bool
  {
    (r: Row<Country>) => CountryMatches(q, r)
  }

  /** One page of the countries matching every given filter, newest first,
      with the number of matches over all pages: the rows whose newest-first
      positions among the matches are those of the requested page. */
  function GetCountries(rows: seq<Row<Country>>, q: CountriesQuery): (r: ListResult<Country>)
    requires Chrono(rows)
    ensures r.page == q.pagination.page && r.limit == q.pagination.limit
    ensures r.total == CountWhere(rows, CountryFilter(q))
    ensures |r.data| <= q.pagination.limit
    ensures forall x | x in r.data :: x in rows && CountryMatches(q, x)
    ensures NewestFirstOrder(r.data)
    ensures HoldsPage(rows, CountryFilter(q), q.pagination, r.data)
  {
    ListPage(rows, CountryFilter(q), q.pagination)
  }

  function GetCountryById(rows: seq<Row<Country>>, id: int): (r: Option<Row<Country>>)
    ensures r.None? <==> !HasId(rows, id)
    ensures r.Some? ==> r.value in rows && r.value.id == id
  {
    Find(rows, id)
  }

  function HasSlug(slug: string): Row<Country> -> bool
  {
    (r: Row<Country>) => r.val.slug == slug
  }

  /** Lookup by slug; a country of either status is found. */
  function GetCountryBySlug(rows: seq<Row<Country>>, slug: string): (r: Option<Row<Country>>)
    ensures r.None? <==> !KeyTaken(rows, CountrySlugOf, slug)
    ensures r.Some? ==> r.value in rows && r.value.val.slug == slug
  {
    First(rows, HasSlug(slug))
  }

  /** The row a create stores: names and slug as given, status ACTIVE unless
      given, every omitted or null optional column NULL. */
  function NewCountry(input: CreateCountryInput): (c: Country)
    ensures c.name == input.name && c.slug == input.slug
    ensures c.status == input.status.GetOr(Active)
    ensures c.imageUrl == OrNull(input.imageUrl)
    ensures c.description == LocOrNull(input.description)
    ensures c.metaTitle == LocOrNull(input.metaTitle) && c.metaDescription == LocOrNull(input.metaDescription)
  {
    Country(input.name, input.slug, LocOrNull(input.description), OrNull(input.imageUrl),
            input.status.GetOr(Active), LocOrNull(input.metaTitle), LocOrNull(input.metaDescription))
  }

  function ApplyCountryPatch(c: Country, p: UpdateCountryInput): Country
  {
    Country(LocPatch(p.name, c.name), Patch(p.slug, c.slug), LocPatch(p.description, c.description),
            Patch(p.imageUrl, c.imageUrl), Patch(p.status, c.status),
            LocPatch(p.metaTitle, c.metaTitle), LocPatch(p.metaDescription, c.metaDescription))
  }

  function NoCountryChanges(id: int): UpdateCountryInput
  {
    UpdateCountryInput(id, LocOmitted(), None, LocOmitted(), None, None, LocOmitted(), LocOmitted())
  }

  /** An update naming no field leaves every column as it was, and
      repeating an update changes nothing further. */
  lemma CountryPatchLaws(c: Country, p: UpdateCountryInput)
    ensures ApplyCountryPatch(c, NoCountryChanges(p.id)) == c
    ensures ApplyCountryPatch(ApplyCountryPatch(c, p), p) == ApplyCountryPatch(c, p)
  {
    LocPatchLaws(p.name, LocOmitted(), c.name);
    LocPatchLaws(p.description, LocOmitted(), c.description);
    LocPatchLaws(p.metaTitle, LocOmitted(), c.metaTitle);
    LocPatchLaws(p.metaDescription, LocOmitted(), c.metaDescription);
  }

  predicate UniversityRefersTo(us: seq<Row<University>>, id: int)
  {
    exists u | u in us :: u.val.countryId == id
  }

  predicate ArticleRefersTo(as_: seq<Row<Article>>, id: int)
  {
    exists a | a in as_ :: a.val.countryId == Some(id)
  }

  // ------------------------------------------------------------- writes

  /** What `createCountry` does to the countries table when the write is
      stamped `now`: a slug already in use is refused and nothing is written;
      otherwise the new row is appended and returned. */
  function CreateCountrySpec(t: Table<Country>, input: CreateCountryInput, now: nat): (Result<Row<Country>, Error>, Table<Country>)
  {
    if KeyTaken(t.rows, CountrySlugOf, input.slug) then (Failure(UniqueViolation(CountrySlug)), t)
    else (Success(Row(t.nextId, now, now, NewCountry(input))), Insert(t, NewCountry(input), now))
  }

  /** What `updateCountry` does: an unknown id is "not found" and changes
      nothing; a new slug held by another country is refused; otherwise the
      patched row replaces the old one, stamped `now`. */
  function UpdateCountrySpec(t: Table<Country>, input: UpdateCountryInput, now: nat): (Result<Option<Row<Country>>, Error>, Table<Country>)
  {
    match Find(t.rows, input.id)
    case None => (Success(None), t)
    case Some(before) =>
      var after := ApplyCountryPatch(before.val, input);
      if !KeyFreeFor(t.rows, CountrySlugOf, after.slug, input.id) then (Failure(UniqueViolation(CountrySlug)), t)
      else (Success(Some(before.(val := after, updatedAt := now))), Table(Update(t.rows, input.id, after, now), t.nextId))
  }

  /** What `deleteCountry` does: refused while a university, then while an
      article, refers to the country; otherwise the row (if any) is removed
      and the result says whether there was one. */
  function DeleteCountrySpec(t: Table<Country>, us: seq<Row<University>>, as_: seq<Row<Article>>, id: int): (Result<bool, Error>, Table<Country>)
  {
    if UniversityRefersTo(us, id) then (Failure(DeleteBlocked(UniversitiesOfCountry)), t)
    else if ArticleRefersTo(as_, id) then (Failure(DeleteBlocked(ArticlesOfCountry)), t)
    else (Success(HasId(t.rows, id)), Table(Remove(t.rows, id), t.nextId))
  }

  method CreateCountry(db: Db, input: CreateCountryInput) returns (res: Result<Row<Country>, Error>)
    requires db.Valid()
    modifies db`countries, db`clock
    ensures db.Valid()
    ensures (res, db.countries) == CreateCountrySpec(old(db.countries), input, old(db.clock) + 1)
    ensures db.clock == if res.Success? then old(db.clock) + 1 else old(db.clock)
  {
    if KeyTaken(db.countries.rows, CountrySlugOf, input.slug) {
      return Failure(UniqueViolation(CountrySlug));
    }
    var now := db.clock + 1;
    var c := NewCountry(input);
    ghost var s := db.Contents();
    var inserted := Insert(db.countries, c, now);
    InsertKeepsConsistent(s, c, inserted, now);
    res := Success(Row(db.countries.nextId, now, now, c));
    db.countries, db.clock := inserted, now;
    assert db.Contents() == s.(countries := inserted, clock := now);
  }

  method UpdateCountry(db: Db, input: UpdateCountryInput) returns (res: Result<Option<Row<Country>>, Error>)
    requires db.Valid()
    modifies db`countries, db`clock
    ensures db.Valid()
    ensures (res, db.countries) == UpdateCountrySpec(old(db.countries), input, old(db.clock) + 1)
    ensures db.clock == if res.Success? && res.value.Some? then old(db.clock) + 1 else old(db.clock)
  {
    var found := Find(db.countries.rows, input.id);
    if found.None? {
      return Success(None);
    }
    var before := found.value;
    var after := ApplyCountryPatch(before.val, input);
    if !KeyFreeFor(db.countries.rows, CountrySlugOf, after.slug, input.id) {
      return Failure(UniqueViolation(CountrySlug));
    }
    var now := db.clock + 1;
    ghost var s := db.Contents();
    var updated := Table(Update(db.countries.rows, input.id, after, now), db.countries.nextId);
    UpdateKeepsConsistent(s, input.id, after, updated, now);
    db.countries, db.clock := updated, now;
    assert db.Contents() == s.(countries := updated, clock := now);
    res := Success(Some(before.(val := after, updatedAt := now)));
  }

  method DeleteCountry(db: Db, id: int) returns (res: Result<bool, Error>)
    requires db.Valid()
    modifies db`countries
    ensures db.Valid()
    ensures (res, db.countries) == DeleteCountrySpec(old(db.countries), db.universities.rows, db.articles.rows, id)
  {
    if UniversityRefersTo(db.universities.rows, id) {
      return Failure(DeleteBlocked(UniversitiesOfCountry));
    }
    if ArticleRefersTo(db.articles.rows, id) {
      return Failure(DeleteBlocked(ArticlesOfCountry));
    }
    var existed := HasId(db.countries.rows, id);
    ghost var s := db.Contents();
    var remaining := Table(Remove(db.countries.rows, id), db.countries.nextId);
    RemoveKeepsConsistent(s, id, remaining);
    db.countries := remaining;
    assert db.Contents() == s.(countries := remaining, clock := s.clock);
    res := Success(existed);
  }

  // ------------------------------------------------- what the writes promise

  /** A create with a free slug appends exactly one row: the new row is found
      by its id and by its slug, carries the create mapping of the input and
      a fresh id, and every earlier row is still there. A taken slug changes
      nothing. */
  lemma {:induction false} CreateCountryFacts(t: Table<Country>, clock: nat, input: CreateCountryInput)
    requires WellFormed(t, clock) && UniqueBy(t.rows, CountrySlugOf)
    ensures var (r, t') := CreateCountrySpec(t, input, clock + 1);
      && (r.Failure? <==> KeyTaken(t.rows, CountrySlugOf, input.slug))
      && (r.Failure? ==> t' == t)
      && (r.Success? ==>
            && r.value.val == NewCountry(input)
            && !HasId(t.rows, r.value.id)
            && r.value.createdAt == r.value.updatedAt == clock + 1
            && GetCountryById(t'.rows, r.value.id) == Some(r.value)
            && GetCountryBySlug(t'.rows, input.slug) == Some(r.value)
            && forall x | x in t.rows :: GetCountryById(t'.rows, x.id) == Some(x))
  {
    var (r, t') := CreateCountrySpec(t, input, clock + 1);
    if r.Success? {
      WellFormedLater(t, clock, clock + 1);
      InsertWellFormed(t, NewCountry(input), clock + 1);
      FindAfterInsert(t, NewCountry(input), clock + 1);
      InsertKeepsUnique(t, CountrySlugOf, NewCountry(input), clock + 1);
      SlugLookupFindsTheCountry(t'.rows, r.value);
    }
  }

  /** An update of a known country changes that row only: lookups by id give
      the patched row with a strictly later `updated_at` and unchanged
      `created_at`, and every other row is as it was. */
  lemma {:induction false} UpdateCountryFacts(t: Table<Country>, clock: nat, input: UpdateCountryInput)
    requires WellFormed(t, clock) && UniqueBy(t.rows, CountrySlugOf)
    ensures var (r, t') := UpdateCountrySpec(t, input, clock + 1);
      && (!HasId(t.rows, input.id) ==> r == Success(None) && t' == t)
      && (r.Failure? ==> r == Failure(UniqueViolation(CountrySlug)) && t' == t)
      && (r.Success? && r.value.Some? ==>
            var before := GetCountryById(t.rows, input.id).value;
            && r.value.value.val == ApplyCountryPatch(before.val, input)
            && r.value.value.createdAt == before.createdAt
            && r.value.value.updatedAt > before.updatedAt
            && GetCountryById(t'.rows, input.id) == r.value
            && UniqueBy(t'.rows, CountrySlugOf)
            && forall x | x in t.rows && x.id != input.id :: GetCountryById(t'.rows, x.id) == Some(x))
  {
    var (r, t') := UpdateCountrySpec(t, input, clock + 1);
    if r.Success? && r.value.Some? {
      var before := Find(t.rows, input.id).value;
      var after := ApplyCountryPatch(before.val, input);
      FindAfterUpdate(t.rows, before, after, clock + 1);
      UpdateKeepsUnique(t.rows, CountrySlugOf, input.id, after, clock + 1);
    }
  }

  /** A delete that is not blocked leaves no country with that id and every
      other country in place; deleting again reports that nothing was
      removed. */
  lemma {:induction false} DeleteCountryFacts(t: Table<Country>, clock: nat, us: seq<Row<University>>, as_: seq<Row<Article>>, id: int)
    requires WellFormed(t, clock)
    ensures var (r, t') := DeleteCountrySpec(t, us, as_, id);
      && (r.Failure? <==> UniversityRefersTo(us, id) || ArticleRefersTo(as_, id))
      && (r.Failure? ==> t' == t)
      && (r.Success? ==>
            && r.value == GetCountryById(t.rows, id).Some?
            && GetCountryById(t'.rows, id).None?
            && DeleteCountrySpec(t', us, as_, id) == (Success(false), t')
            && forall x | x in t.rows && x.id != id :: GetCountryById(t'.rows, x.id) == Some(x))
  {
    var (r, t') := DeleteCountrySpec(t, us, as_, id);
    if r.Success? {
      FindAfterRemove(t.rows, id);
      RemoveKeepsOtherIds(t'.rows, id);
    }
  }

  /** A slug lookup after a create finds the new country; after a delete
      neither lookup finds the removed one. */
  lemma SlugLookupFindsTheCountry(rows: seq<Row<Country>>, x: Row<Country>)
    requires Chrono(rows) && UniqueBy(rows, CountrySlugOf) && x in rows
    ensures GetCountryBySlug(rows, x.val.slug) == Some(x)
  {
    var r := GetCountryBySlug(rows, x.val.slug).value;
    var i :| 0 <= i < |rows| && rows[i] == r;
    var j :| 0 <= j < |rows| && rows[j] == x;
    assert CountrySlugOf(rows[i].val) == CountrySlugOf(rows[j].val);
  }

  // ------------------------------------------- the store invariant survives

  lemma InsertKeepsConsistent(s: Snapshot, v: Country, t: Table<Country>, now: nat)
    requires Consistent(s) && !KeyTaken(s.countries.rows, CountrySlugOf, v.slug)
    requires now == s.clock + 1 && t == Insert(s.countries, v, now)
    ensures Consistent(s.(countries := t, clock := now))
  {
    WellFormedLater(s.countries, s.clock, now);
    InsertWellFormed(s.countries, v, now);
    InsertKeepsUnique(s.countries, CountrySlugOf, v, now);
    InsertKeepsIds(s.countries, v, now);
    UniversityRefsKept(s.universities.rows, s.countries.rows, t.rows);
    ArticleRefsKept(s.articles.rows, s.countries.rows, t.rows, s.majors.rows, s.majors.rows);
    CountriesReplaced(s, t, now);
  }

  lemma UpdateKeepsConsistent(s: Snapshot, id: int, v: Country, t: Table<Country>, now: nat)
    requires Consistent(s) && KeyFreeFor(s.countries.rows, CountrySlugOf, v.slug, id)
    requires now == s.clock + 1 && t == Table(Update(s.countries.rows, id, v, now), s.countries.nextId)
    ensures Consistent(s.(countries := t, clock := now))
  {
    WellFormedLater(s.countries, s.clock, now);
    UpdateWellFormed(s.countries, id, v, now);
    UpdateKeepsUnique(s.countries.rows, CountrySlugOf, id, v, now);
    UpdateKeepsIds(s.countries.rows, id, v, now);
    UniversityRefsKept(s.universities.rows, s.countries.rows, t.rows);
    ArticleRefsKept(s.articles.rows, s.countries.rows, t.rows, s.majors.rows, s.majors.rows);
    CountriesReplaced(s, t, now);
  }

  lemma RemoveKeepsConsistent(s: Snapshot, id: int, t: Table<Country>)
    requires Consistent(s)
    requires !UniversityRefersTo(s.universities.rows, id) && !ArticleRefersTo(s.articles.rows, id)
    requires t == Table(Remove(s.countries.rows, id), s.countries.nextId)
    ensures Consistent(s.(countries := t, clock := s.clock))
  {
    RemoveWellFormed(s.countries, id, s.clock);
    RemoveKeepsUnique(s.countries.rows, CountrySlugOf, id);
    RemoveKeepsOtherIds(s.countries.rows, id);
    CountriesReplaced(s, t, s.clock);
  }
}
