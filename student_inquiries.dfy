/** Student inquiries, the leads captured by the site's forms: paginated
    listing with status, language, date-range and name filters, lookup by id,
    the NEW-inquiry count, the inquiries in one status, and create, update
    (status and notes only) and delete. */
module StudentInquiries {
  import opened Wrappers
  import opened Schema
  import opened Tables
  import opened DbSchema
  import opened Fields
  import opened Query
  import opened Text
  import opened Store

  /** `dateFrom` and `dateTo` are inclusive bounds on `created_at`; the
      search looks in the full name only. */
  predicate InquiryMatches(q: InquiriesQuery, r: Row<StudentInquiry>)
  {
    && (q.status.None? || r.val.status == q.status.value)
    && (q.languageCode.None? || r.val.languageCode == q.languageCode.value)
    && (q.dateFrom.None? || q.dateFrom.value <= r.createdAt)
    && (q.dateTo.None? || r.createdAt <= q.dateTo.value)
    && SearchHit(q.search, [r.val.fullName])
  }

  function InquiryFilter(q: InquiriesQuery): Row<StudentInquiry> -> bool
  {
    (r: Row<StudentInquiry>) => InquiryMatches(q, r)
  }

  /** One page of the inquiries matching every given filter, newest first,
      with the number of matches over all pages: the rows whose newest-first
      positions among the matches are those of the requested page. */
  function GetStudentInquiries(rows: seq<Row<StudentInquiry>>, q: InquiriesQuery): (r: ListResult<StudentInquiry>)
    requires Chrono(rows)
    ensures r.page == q.pagination.page && r.limit == q.pagination.limit
    ensures r.total == CountWhere(rows, InquiryFilter(q))
    ensures |r.data| <= q.pagination.limit
    ensures forall x | x in r.data :: x in rows && InquiryMatches(q, x)
    ensures NewestFirstOrder(r.data)
    ensures HoldsPage(rows, InquiryFilter(q), q.pagination, r.data)
  {
    ListPage(rows, InquiryFilter(q), q.pagination)
  }

  function GetStudentInquiryById(rows: seq<Row<StudentInquiry>>, id: int): (r: Option<Row<StudentInquiry>>)
    ensures r.None? <==> !HasId(rows, id)
    ensures r.Some? ==> r.value in rows && r.value.id == id
  {
    Find(rows, id)
  }

  function InStatus(status: InquiryStatus): Row<StudentInquiry> -> bool
  {
    (r: Row<StudentInquiry>) => r.val.status == status
  }

  /** How many inquiries are still NEW. */
  function GetNewInquiriesCount(rows: seq<Row<StudentInquiry>>): (n: nat)
    ensures n == CountWhere(rows, InStatus(New))
    ensures n <= |rows|
    ensures n == 0 <==> forall x | x in rows :: x.val.status != New
  {
    var r := Where(rows, InStatus(New));
    assert r != [] ==> r[0] in r;
    |r|
  }

  /** The inquiries in one status, newest first. */
  function GetInquiriesByStatus(rows: seq<Row<StudentInquiry>>, status: InquiryStatus): (r: seq<Row<StudentInquiry>>)
    requires Chrono(rows)
    ensures forall x | x in r :: x in rows && x.val.status == status
    ensures forall x | x in rows && x.val.status == status :: x in r
    ensures NewestFirstOrder(r)
  {
    NewestFirst(Where(rows, InStatus(status)))
  }

  /** The NEW count is the length of the NEW list. */
  lemma NewCountIsNewList(rows: seq<Row<StudentInquiry>>)
    requires Chrono(rows)
    ensures GetNewInquiriesCount(rows) == |GetInquiriesByStatus(rows, New)|
  {
  }

  /** The row a create stores: contact fields and language as given, status
      NEW and no notes whatever the caller sends, every omitted or null
      optional column NULL. */
  function NewInquiry(input: CreateStudentInquiryInput): (i: StudentInquiry)
    ensures i.status == New && i.notes.None?
    ensures i.fullName == input.fullName && i.email == input.email && i.phone == input.phone
    ensures i.languageCode == input.languageCode
    ensures i.whatsapp == OrNull(input.whatsapp) && i.desiredCountry == OrNull(input.desiredCountry)
    ensures i.studyLevel == OrNull(input.studyLevel) && i.desiredMajor == OrNull(input.desiredMajor)
    ensures i.message == OrNull(input.message) && i.sourcePage == OrNull(input.sourcePage)
  {
    StudentInquiry(input.fullName, input.email, input.phone, OrNull(input.whatsapp),
                   OrNull(input.desiredCountry), OrNull(input.studyLevel), OrNull(input.desiredMajor),
                   OrNull(input.message), OrNull(input.sourcePage), input.languageCode, New, None)
  }

  /** An inquiry update touches the status and the notes and nothing else. */
  function ApplyInquiryPatch(i: StudentInquiry, p: UpdateStudentInquiryInput): (r: StudentInquiry)
    ensures r.(status := i.status, notes := i.notes) == i
  {
    i.(status := Patch(p.status, i.status), notes := Patch(p.notes, i.notes))
  }

  // ------------------------------------------------------------- writes

  /** What `createStudentInquiry` does when the write is stamped `now`: a
      lead has no unique column and no reference, so it is always appended. */
  function CreateStudentInquirySpec(t: Table<StudentInquiry>, input: CreateStudentInquiryInput, now: nat): (Row<StudentInquiry>, Table<StudentInquiry>)
  {
    (Row(t.nextId, now, now, NewInquiry(input)), Insert(t, NewInquiry(input), now))
  }

  /** What `updateStudentInquiry` does: null for an unknown id; otherwise the
      patched row replaces the old one, stamped `now`. */
  function UpdateStudentInquirySpec(t: Table<StudentInquiry>, input: UpdateStudentInquiryInput, now: nat): (Option<Row<StudentInquiry>>, Table<StudentInquiry>)
  {
    match Find(t.rows, input.id)
    case None => (None, t)
    case Some(before) =>
      var after := ApplyInquiryPatch(before.val, input);
      (Some(before.(val := after, updatedAt := now)), Table(Update(t.rows, input.id, after, now), t.nextId))
  }

  function DeleteStudentInquirySpec(t: Table<StudentInquiry>, id: int): (bool, Table<StudentInquiry>)
  {
    (HasId(t.rows, id), Table(Remove(t.rows, id), t.nextId))
  }

  method CreateStudentInquiry(db: Db, input: CreateStudentInquiryInput) returns (row: Row<StudentInquiry>)
    requires db.Valid()
    modifies db`inquiries, db`clock
    ensures db.Valid()
    ensures (row, db.inquiries) == CreateStudentInquirySpec(old(db.inquiries), input, old(db.clock) + 1)
    ensures db.clock == old(db.clock) + 1
  {
    var now := db.clock + 1;
    var v := NewInquiry(input);
    ghost var s := db.Contents();
    var inserted := Insert(db.inquiries, v, now);
    InsertKeepsConsistent(s, v, inserted, now);
    row := Row(db.inquiries.nextId, now, now, v);
    db.inquiries, db.clock := inserted, now;
    assert db.Contents() == s.(inquiries := inserted, clock := now);
  }

  method UpdateStudentInquiry(db: Db, input: UpdateStudentInquiryInput) returns (res: Option<Row<StudentInquiry>>)
    requires db.Valid()
    modifies db`inquiries, db`clock
    ensures db.Valid()
    ensures (res, db.inquiries) == UpdateStudentInquirySpec(old(db.inquiries), input, old(db.clock) + 1)
    ensures db.clock == if res.Some? then old(db.clock) + 1 else old(db.clock)
  {
    var found := Find(db.inquiries.rows, input.id);
    if found.None? {
      return None;
    }
    var before := found.value;
    var after := ApplyInquiryPatch(before.val, input);
    var now := db.clock + 1;
    ghost var s := db.Contents();
    var updated := Table(Update(db.inquiries.rows, input.id, after, now), db.inquiries.nextId);
    UpdateKeepsConsistent(s, input.id, after, updated, now);
    db.inquiries, db.clock := updated, now;
    assert db.Contents() == s.(inquiries := updated, clock := now);
    res := Some(before.(val := after, updatedAt := now));
  }

  method DeleteStudentInquiry(db: Db, id: int) returns (existed: bool)
    requires db.Valid()
    modifies db`inquiries
    ensures db.Valid()
    ensures (existed, db.inquiries) == DeleteStudentInquirySpec(old(db.inquiries), id)
  {
    existed := HasId(db.inquiries.rows, id);
    ghost var s := db.Contents();
    var remaining := Table(Remove(db.inquiries.rows, id), db.inquiries.nextId);
    RemoveKeepsConsistent(s, id, remaining);
    db.inquiries := remaining;
    assert db.Contents() == s.(inquiries := remaining, clock := s.clock);
  }

  // ------------------------------------------------- what the writes promise

  /** A create appends one NEW row found by its fresh id, newer than every
      earlier inquiry, which all stay in place; it is then the first row an
      unfiltered listing shows. */
  lemma {:induction false} CreateStudentInquiryFacts(t: Table<StudentInquiry>, clock: nat, input: CreateStudentInquiryInput)
    requires WellFormed(t, clock)
    ensures var (r, t') := CreateStudentInquirySpec(t, input, clock + 1);
      && r.val == NewInquiry(input) && r.val.status == New
      && !HasId(t.rows, r.id)
      && GetStudentInquiryById(t'.rows, r.id) == Some(r)
      && (forall x | x in t.rows :: GetStudentInquiryById(t'.rows, x.id) == Some(x) && Newer(r, x))
      && GetNewInquiriesCount(t'.rows) == GetNewInquiriesCount(t.rows) + 1
  {
    var (r, t') := CreateStudentInquirySpec(t, input, clock + 1);
    WellFormedLater(t, clock, clock + 1);
    FindAfterInsert(t, NewInquiry(input), clock + 1);
    WhereAppend(t.rows, InStatus(New), r);
  }

  /** An update of a known inquiry changes only its status and notes, keeps
      `created_at`, moves `updated_at` strictly forward, and leaves every
      other inquiry as it was. */
  lemma {:induction false} UpdateStudentInquiryFacts(t: Table<StudentInquiry>, clock: nat, input: UpdateStudentInquiryInput)
    requires WellFormed(t, clock)
    ensures var (r, t') := UpdateStudentInquirySpec(t, input, clock + 1);
      && (r.None? <==> !HasId(t.rows, input.id))
      && (r.None? ==> t' == t)
      && (r.Some? ==>
            var before := GetStudentInquiryById(t.rows, input.id).value;
            && r.value.val == before.val.(status := Patch(input.status, before.val.status),
                                          notes := Patch(input.notes, before.val.notes))
            && r.value.createdAt == before.createdAt
            && r.value.updatedAt > before.updatedAt
            && GetStudentInquiryById(t'.rows, input.id) == r
            && forall x | x in t.rows && x.id != input.id :: GetStudentInquiryById(t'.rows, x.id) == Some(x))
  {
    var (r, t') := UpdateStudentInquirySpec(t, input, clock + 1);
    if r.Some? {
      var before := Find(t.rows, input.id).value;
      FindAfterUpdate(t.rows, before, ApplyInquiryPatch(before.val, input), clock + 1);
    }
  }

  /** After a delete the id is gone, the result says whether it was there,
      every other inquiry stays, and deleting again removes nothing. */
  lemma {:induction false} DeleteStudentInquiryFacts(t: Table<StudentInquiry>, id: int)
    requires Chrono(t.rows)
    ensures var (r, t') := DeleteStudentInquirySpec(t, id);
      && r == GetStudentInquiryById(t.rows, id).Some?
      && GetStudentInquiryById(t'.rows, id).None?
      && DeleteStudentInquirySpec(t', id) == (false, t')
      && forall x | x in t.rows && x.id != id :: GetStudentInquiryById(t'.rows, x.id) == Some(x)
  {
    FindAfterRemove(t.rows, id);
  }

  // ------------------------------------------- the store invariant survives

  lemma InsertKeepsConsistent(s: Snapshot, v: StudentInquiry, t: Table<StudentInquiry>, now: nat)
    requires Consistent(s)
    requires now == s.clock + 1 && t == Insert(s.inquiries, v, now)
    ensures Consistent(s.(inquiries := t, clock := now))
  {
    WellFormedLater(s.inquiries, s.clock, now);
    InsertWellFormed(s.inquiries, v, now);
    InquiriesReplaced(s, t, now);
  }

  lemma UpdateKeepsConsistent(s: Snapshot, id: int, v: StudentInquiry, t: Table<StudentInquiry>, now: nat)
    requires Consistent(s)
    requires now == s.clock + 1 && t == Table(Update(s.inquiries.rows, id, v, now), s.inquiries.nextId)
    ensures Consistent(s.(inquiries := t, clock := now))
  {
    WellFormedLater(s.inquiries, s.clock, now);
    UpdateWellFormed(s.inquiries, id, v, now);
    InquiriesReplaced(s, t, now);
  }

  lemma RemoveKeepsConsistent(s: Snapshot, id: int, t: Table<StudentInquiry>)
    requires Consistent(s)
    requires t == Table(Remove(s.inquiries.rows, id), s.inquiries.nextId)
    ensures Consistent(s.(inquiries := t, clock := s.clock))
  {
    RemoveWellFormed(s.inquiries, id, s.clock);
    InquiriesReplaced(s, t, s.clock);
  }
}
