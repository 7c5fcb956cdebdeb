/** Major repository: paginated listing filtered by the offering university,
    status and search, lookup by id and by slug (ACTIVE majors only), the
    ACTIVE majors of one university, create, update, and a delete guarded by
    the university links and articles that reference the major. */
module Majors {
  import opened Wrappers
  import opened Errors
  import opened Schema
  import opened Tables
  import opened DbSchema
  import opened Fields
  import opened Query
  import opened Text
  import opened Store

  /** The columns a search looks in: the four names and the slug. */
  function SearchColumns(m: Major): seq<string>
  {
    Variants(m.name) + [m.slug]
  }

  /** Some university–major link joins the university to the major. */
  predicate Offered(ums: seq<Row<UniversityMajor>>, universityId: int, majorId: int)
  {
    exists l | l in ums :: l.val.universityId == universityId && l.val.majorId == majorId
  }

  predicate MajorMatches(q: MajorsQuery, ums: seq<Row<UniversityMajor>>, r: Row<Major>)
  {
    && (q.universityId.None? || Offered(ums, q.universityId.value, r.id))
    && (q.status.None? || r.val.status == q.status.value)
    && SearchHit(q.search, SearchColumns(r.val))
  }

  function MajorFilter(q: MajorsQuery, ums: seq<Row<UniversityMajor>>): Row<Major> -> bool
  {
    (r: Row<Major>) => MajorMatches(q, ums, r)
  }

  /** One page of the majors matching every given filter, newest first, with
      the number of matches over all pages: the rows whose newest-first
      positions among the matches are those of the requested page. The
      university filter keeps the majors that the university offers through
      `university_majors`. */
  function GetMajors(rows: seq<Row<Major>>, ums: seq<Row<UniversityMajor>>, q: MajorsQuery): (r: ListResult<Major>)
    requires Chrono(rows)
    ensures r.page == q.pagination.page && r.limit == q.pagination.limit
    ensures r.total == CountWhere(rows, MajorFilter(q, ums))
    ensures |r.data| <= q.pagination.limit
    ensures forall x | x in r.data :: x in rows && MajorMatches(q, ums, x)
    ensures NewestFirstOrder(r.data)
    ensures HoldsPage(rows, MajorFilter(q, ums), q.pagination, r.data)
  {
    ListPage(rows, MajorFilter(q, ums), q.pagination)
  }

  /** Lookup by id sees majors of either status. */
  function GetMajorById(rows: seq<Row<Major>>, id: int): (r: Option<Row<Major>>)
    ensures r.None? <==> !HasId(rows, id)
    ensures r.Some? ==> r.value in rows && r.value.id == id
  {
    Find(rows, id)
  }

  function ActiveWithSlug(slug: string): Row<Major> -> bool
  {
    (r: Row<Major>) => r.val.slug == slug && r.val.status == Active
  }

  /** Lookup by slug for public pages: an INACTIVE major is not found. */
  function GetMajorBySlug(rows: seq<Row<Major>>, slug: string): (r: Option<Row<Major>>)
    ensures r.None? <==> forall x | x in rows :: !(x.val.slug == slug && x.val.status == Active)
    ensures r.Some? ==> r.value in rows && r.value.val.slug == slug && r.value.val.status == Active
  {
    First(rows, ActiveWithSlug(slug))
  }

  function ActiveAt(ums: seq<Row<UniversityMajor>>, universityId: int): Row<Major> -> bool
  {
    (r: Row<Major>) => r.val.status == Active && Offered(ums, universityId, r.id)
  }

  /** The ACTIVE majors a university offers, newest first; none for a
      university that offers nothing or does not exist. */
  function GetMajorsByUniversity(rows: seq<Row<Major>>, ums: seq<Row<UniversityMajor>>, universityId: int): (r: seq<Row<Major>>)
    requires Chrono(rows)
    ensures forall x | x in r :: x in rows && x.val.status == Active && Offered(ums, universityId, x.id)
    ensures forall x | x in rows && x.val.status == Active && Offered(ums, universityId, x.id) :: x in r
    ensures NewestFirstOrder(r)
  {
    NewestFirst(Where(rows, ActiveAt(ums, universityId)))
  }

  /** The row a create stores: names and slug as given, status ACTIVE unless
      given, every omitted or null optional column NULL. */
  function NewMajor(input: CreateMajorInput): (m: Major)
    ensures m.name == input.name && m.slug == input.slug
    ensures m.status == input.status.GetOr(Active)
    ensures m.imageUrl == OrNull(input.imageUrl)
    ensures m.description == LocOrNull(input.description)
    ensures m.futureOpportunities == LocOrNull(input.futureOpportunities)
    ensures m.metaTitle == LocOrNull(input.metaTitle) && m.metaDescription == LocOrNull(input.metaDescription)
  {
    Major(input.name, input.slug, LocOrNull(input.description), LocOrNull(input.futureOpportunities),
          OrNull(input.imageUrl), input.status.GetOr(Active),
          LocOrNull(input.metaTitle), LocOrNull(input.metaDescription))
  }

  function ApplyMajorPatch(m: Major, p: UpdateMajorInput): Major
  {
    Major(LocPatch(p.name, m.name), Patch(p.slug, m.slug), LocPatch(p.description, m.description),
          LocPatch(p.futureOpportunities, m.futureOpportunities), Patch(p.imageUrl, m.imageUrl),
          Patch(p.status, m.status), LocPatch(p.metaTitle, m.metaTitle), LocPatch(p.metaDescription, m.metaDescription))
  }

  function NoMajorChanges(id: int): UpdateMajorInput
  {
    UpdateMajorInput(id, LocOmitted(), None, LocOmitted(), LocOmitted(), None, None, LocOmitted(), LocOmitted())
  }

  /** An update naming no field leaves every column as it was, and
      repeating an update changes nothing further. */
  lemma MajorPatchLaws(m: Major, p: UpdateMajorInput)
    ensures ApplyMajorPatch(m, NoMajorChanges(p.id)) == m
    ensures ApplyMajorPatch(ApplyMajorPatch(m, p), p) == ApplyMajorPatch(m, p)
  {
    LocPatchLaws(p.name, LocOmitted(), m.name);
    LocPatchLaws(p.description, LocOmitted(), m.description);
    LocPatchLaws(p.futureOpportunities, LocOmitted(), m.futureOpportunities);
    LocPatchLaws(p.metaTitle, LocOmitted(), m.metaTitle);
    LocPatchLaws(p.metaDescription, LocOmitted(), m.metaDescription);
  }

  predicate LinkRefersTo(ums: seq<Row<UniversityMajor>>, id: int)
  {
    exists l | l in ums :: l.val.majorId == id
  }

  predicate ArticleRefersTo(as_: seq<Row<Article>>, id: int)
  {
    exists a | a in as_ :: a.val.majorId == Some(id)
  }

  // ------------------------------------------------------------- writes

  /** What `createMajor` does when the write is stamped `now`: a slug
      already in use is refused; otherwise the new row is appended. */
  function CreateMajorSpec(t: Table<Major>, input: CreateMajorInput, now: nat): (Result<Row<Major>, Error>, Table<Major>)
  {
    if KeyTaken(t.rows, MajorSlugOf, input.slug) then (Failure(UniqueViolation(MajorSlug)), t)
    else (Success(Row(t.nextId, now, now, NewMajor(input))), Insert(t, NewMajor(input), now))
  }

  /** What `updateMajor` does: an unknown id is "not found"; a new slug held
      by another major is refused; otherwise the patched row replaces the old
      one, stamped `now`. */
  function UpdateMajorSpec(t: Table<Major>, input: UpdateMajorInput, now: nat): (Result<Option<Row<Major>>, Error>, Table<Major>)
  {
    match Find(t.rows, input.id)
    case None => (Success(None), t)
    case Some(before) =>
      var after := ApplyMajorPatch(before.val, input);
      if !KeyFreeFor(t.rows, MajorSlugOf, after.slug, input.id) then (Failure(UniqueViolation(MajorSlug)), t)
      else (Success(Some(before.(val := after, updatedAt := now))), Table(Update(t.rows, input.id, after, now), t.nextId))
  }

  /** What `deleteMajor` does: refused while a university offers the major,
      then while an article refers to it; otherwise the row (if any) is
      removed and the result says whether there was one. */
  function DeleteMajorSpec(t: Table<Major>, ums: seq<Row<UniversityMajor>>, as_: seq<Row<Article>>, id: int): (Result<bool, Error>, Table<Major>)
  {
    if LinkRefersTo(ums, id) then (Failure(DeleteBlocked(UniversitiesOfMajor)), t)
    else if ArticleRefersTo(as_, id) then (Failure(DeleteBlocked(ArticlesOfMajor)), t)
    else (Success(HasId(t.rows, id)), Table(Remove(t.rows, id), t.nextId))
  }

  method CreateMajor(db: Db, input: CreateMajorInput) returns (res: Result<Row<Major>, Error>)
    requires db.Valid()
    modifies db`majors, db`clock
    ensures db.Valid()
    ensures (res, db.majors) == CreateMajorSpec(old(db.majors), input, old(db.clock) + 1)
    ensures db.clock == if res.Success? then old(db.clock) + 1 else old(db.clock)
  {
    if KeyTaken(db.majors.rows, MajorSlugOf, input.slug) {
      return Failure(UniqueViolation(MajorSlug));
    }
    var now := db.clock + 1;
    var m := NewMajor(input);
    ghost var s := db.Contents();
    var inserted := Insert(db.majors, m, now);
    InsertKeepsConsistent(s, m, inserted, now);
    res := Success(Row(db.majors.nextId, now, now, m));
    db.majors, db.clock := inserted, now;
    assert db.Contents() == s.(majors := inserted, clock := now);
  }

  method UpdateMajor(db: Db, input: UpdateMajorInput) returns (res: Result<Option<Row<Major>>, Error>)
    requires db.Valid()
    modifies db`majors, db`clock
    ensures db.Valid()
    ensures (res, db.majors) == UpdateMajorSpec(old(db.majors), input, old(db.clock) + 1)
    ensures db.clock == if res.Success? && res.value.Some? then old(db.clock) + 1 else old(db.clock)
  {
    var found := Find(db.majors.rows, input.id);
    if found.None? {
      return Success(None);
    }
    var before := found.value;
    var after := ApplyMajorPatch(before.val, input);
    if !KeyFreeFor(db.majors.rows, MajorSlugOf, after.slug, input.id) {
      return Failure(UniqueViolation(MajorSlug));
    }
    var now := db.clock + 1;
    ghost var s := db.Contents();
    var updated := Table(Update(db.majors.rows, input.id, after, now), db.majors.nextId);
    UpdateKeepsConsistent(s, input.id, after, updated, now);
    db.majors, db.clock := updated, now;
    assert db.Contents() == s.(majors := updated, clock := now);
    res := Success(Some(before.(val := after, updatedAt := now)));
  }

  method DeleteMajor(db: Db, id: int) returns (res: Result<bool, Error>)
    requires db.Valid()
    modifies db`majors
    ensures db.Valid()
    ensures (res, db.majors) == DeleteMajorSpec(old(db.majors), db.universityMajors.rows, db.articles.rows, id)
  {
    if LinkRefersTo(db.universityMajors.rows, id) {
      return Failure(DeleteBlocked(UniversitiesOfMajor));
    }
    if ArticleRefersTo(db.articles.rows, id) {
      return Failure(DeleteBlocked(ArticlesOfMajor));
    }
    var existed := HasId(db.majors.rows, id);
    ghost var s := db.Contents();
    var remaining := Table(Remove(db.majors.rows, id), db.majors.nextId);
    RemoveKeepsConsistent(s, id, remaining);
    db.majors := remaining;
    assert db.Contents() == s.(majors := remaining, clock := s.clock);
    res := Success(existed);
  }

  // ------------------------------------------------- what the writes promise

  /** A create with a free slug appends exactly one row carrying the create
      mapping of the input, found by its fresh id, with every earlier row
      still in place; a taken slug changes nothing. */
  lemma {:induction false} CreateMajorFacts(t: Table<Major>, clock: nat, input: CreateMajorInput)
    requires WellFormed(t, clock)
    ensures var (r, t') := CreateMajorSpec(t, input, clock + 1);
      && (r.Failure? <==> KeyTaken(t.rows, MajorSlugOf, input.slug))
      && (r.Failure? ==> r == Failure(UniqueViolation(MajorSlug)) && t' == t)
      && (r.Success? ==>
            && r.value.val == NewMajor(input)
            && !HasId(t.rows, r.value.id)
            && GetMajorById(t'.rows, r.value.id) == Some(r.value)
            && forall x | x in t.rows :: GetMajorById(t'.rows, x.id) == Some(x))
  {
    var (r, t') := CreateMajorSpec(t, input, clock + 1);
    if r.Success? {
      WellFormedLater(t, clock, clock + 1);
      FindAfterInsert(t, NewMajor(input), clock + 1);
    }
  }

  /** An update of a known major changes that row only: the patched row
      with unchanged `created_at` and strictly later `updated_at`; every
      other row as it was. */
  lemma {:induction false} UpdateMajorFacts(t: Table<Major>, clock: nat, input: UpdateMajorInput)
    requires WellFormed(t, clock)
    ensures var (r, t') := UpdateMajorSpec(t, input, clock + 1);
      && (!HasId(t.rows, input.id) ==> r == Success(None) && t' == t)
      && (r.Failure? ==> r == Failure(UniqueViolation(MajorSlug)) && t' == t)
      && (r.Success? && r.value.Some? ==>
            var before := GetMajorById(t.rows, input.id).value;
            && r.value.value.val == ApplyMajorPatch(before.val, input)
            && r.value.value.createdAt == before.createdAt
            && r.value.value.updatedAt > before.updatedAt
            && GetMajorById(t'.rows, input.id) == r.value
            && forall x | x in t.rows && x.id != input.id :: GetMajorById(t'.rows, x.id) == Some(x))
  {
    var (r, t') := UpdateMajorSpec(t, input, clock + 1);
    if r.Success? && r.value.Some? {
      var before := Find(t.rows, input.id).value;
      FindAfterUpdate(t.rows, before, ApplyMajorPatch(before.val, input), clock + 1);
    }
  }

  /** A major still offered by a university, or still referred to by an
      article, is never deleted; otherwise the row is gone afterwards, every
      other major stays, and deleting again removes nothing. */
  lemma {:induction false} DeleteMajorFacts(t: Table<Major>, ums: seq<Row<UniversityMajor>>, as_: seq<Row<Article>>, id: int)
    requires Chrono(t.rows)
    ensures var (r, t') := DeleteMajorSpec(t, ums, as_, id);
      && (r.Failure? <==> LinkRefersTo(ums, id) || ArticleRefersTo(as_, id))
      && (LinkRefersTo(ums, id) ==> r == Failure(DeleteBlocked(UniversitiesOfMajor)))
      && (r.Failure? ==> t' == t)
      && (r.Success? ==>
            && r.value == GetMajorById(t.rows, id).Some?
            && GetMajorById(t'.rows, id).None?
            && DeleteMajorSpec(t', ums, as_, id) == (Success(false), t')
            && forall x | x in t.rows && x.id != id :: GetMajorById(t'.rows, x.id) == Some(x))
  {
    var (r, t') := DeleteMajorSpec(t, ums, as_, id);
    if r.Success? {
      FindAfterRemove(t.rows, id);
    }
  }

  /** Under the unique slug index, an ACTIVE major is what its slug finds,
      and a slug whose only major is INACTIVE finds nothing. */
  lemma {:induction false} SlugLookupSeesActiveOnly(rows: seq<Row<Major>>, x: Row<Major>)
    requires Chrono(rows) && UniqueBy(rows, MajorSlugOf) && x in rows
    ensures GetMajorBySlug(rows, x.val.slug) == (if x.val.status == Active then Some(x) else None)
  {
    forall y | y in rows && y.val.slug == x.val.slug ensures y == x {
      var i :| 0 <= i < |rows| && rows[i] == y;
      var j :| 0 <= j < |rows| && rows[j] == x;
      assert MajorSlugOf(rows[i].val) == MajorSlugOf(rows[j].val);
    }
    if x.val.status == Active {
      assert ActiveWithSlug(x.val.slug)(x);
    }
  }

  // ------------------------------------------- the store invariant survives

  lemma InsertKeepsConsistent(s: Snapshot, v: Major, t: Table<Major>, now: nat)
    requires Consistent(s) && !KeyTaken(s.majors.rows, MajorSlugOf, v.slug)
    requires now == s.clock + 1 && t == Insert(s.majors, v, now)
    ensures Consistent(s.(majors := t, clock := now))
  {
    WellFormedLater(s.majors, s.clock, now);
    InsertWellFormed(s.majors, v, now);
    InsertKeepsUnique(s.majors, MajorSlugOf, v, now);
    InsertKeepsIds(s.majors, v, now);
    UniversityMajorRefsKept(s.universityMajors.rows, s.universities.rows, s.universities.rows, s.majors.rows, t.rows);
    ArticleRefsKept(s.articles.rows, s.countries.rows, s.countries.rows, s.majors.rows, t.rows);
    MajorsReplaced(s, t, now);
  }

  lemma UpdateKeepsConsistent(s: Snapshot, id: int, v: Major, t: Table<Major>, now: nat)
    requires Consistent(s) && KeyFreeFor(s.majors.rows, MajorSlugOf, v.slug, id)
    requires now == s.clock + 1 && t == Table(Update(s.majors.rows, id, v, now), s.majors.nextId)
    ensures Consistent(s.(majors := t, clock := now))
  {
    WellFormedLater(s.majors, s.clock, now);
    UpdateWellFormed(s.majors, id, v, now);
    UpdateKeepsUnique(s.majors.rows, MajorSlugOf, id, v, now);
    UpdateKeepsIds(s.majors.rows, id, v, now);
    UniversityMajorRefsKept(s.universityMajors.rows, s.universities.rows, s.universities.rows, s.majors.rows, t.rows);
    ArticleRefsKept(s.articles.rows, s.countries.rows, s.countries.rows, s.majors.rows, t.rows);
    MajorsReplaced(s, t, now);
  }

  lemma RemoveKeepsConsistent(s: Snapshot, id: int, t: Table<Major>)
    requires Consistent(s)
    requires !LinkRefersTo(s.universityMajors.rows, id) && !ArticleRefersTo(s.articles.rows, id)
    requires t == Table(Remove(s.majors.rows, id), s.majors.nextId)
    ensures Consistent(s.(majors := t, clock := s.clock))
  {
    RemoveWellFormed(s.majors, id, s.clock);
    RemoveKeepsUnique(s.majors.rows, MajorSlugOf, id);
    RemoveKeepsOtherIds(s.majors.rows, id);
    MajorsReplaced(s, t, s.clock);
  }
}
