/** University–major links: the majors a university offers and the
    universities offering a major, the details of one link, and create,
    update and delete of a link addressed by its (university, major) pair. */
module UniversityMajors {
  import opened Wrappers
  import opened Errors
  import opened Schema
  import opened Tables
  import opened DbSchema
  import opened Fields
  import opened Query
  import opened Store

  function AtUniversity(universityId: int): Row<UniversityMajor> -> bool
  {
    (r: Row<UniversityMajor>) => r.val.universityId == universityId
  }

  function OfMajor(majorId: int): Row<UniversityMajor> -> bool
  {
    (r: Row<UniversityMajor>) => r.val.majorId == majorId
  }

  function IsPair(universityId: int, majorId: int): Row<UniversityMajor> -> bool
  {
    (r: Row<UniversityMajor>) => PairOf(r.val) == (universityId, majorId)
  }

  /** Every link of one university, newest first; none for a university
      without links or one that does not exist. */
  function GetUniversityMajors(ums: seq<Row<UniversityMajor>>, universityId: int): (r: seq<Row<UniversityMajor>>)
    requires Chrono(ums)
    ensures forall x | x in r :: x in ums && x.val.universityId == universityId
    ensures forall x | x in ums && x.val.universityId == universityId :: x in r
    ensures NewestFirstOrder(r)
  {
    NewestFirst(Where(ums, AtUniversity(universityId)))
  }

  /** Every link of one major, newest first. */
  function GetMajorUniversities(ums: seq<Row<UniversityMajor>>, majorId: int): (r: seq<Row<UniversityMajor>>)
    requires Chrono(ums)
    ensures forall x | x in r :: x in ums && x.val.majorId == majorId
    ensures forall x | x in ums && x.val.majorId == majorId :: x in r
    ensures NewestFirstOrder(r)
  {
    NewestFirst(Where(ums, OfMajor(majorId)))
  }

  /** The link of one (university, major) pair, or null when there is none. */
  function GetUniversityMajorDetails(ums: seq<Row<UniversityMajor>>, universityId: int, majorId: int): (r: Option<Row<UniversityMajor>>)
    ensures r.None? <==> !KeyTaken(ums, PairOf, (universityId, majorId))
    ensures r.Some? ==> r.value in ums && r.value.val.universityId == universityId && r.value.val.majorId == majorId
  {
    First(ums, IsPair(universityId, majorId))
  }

  /** Under the unique pair index, the link a pair finds is the one row
      holding that pair. */
  lemma {:induction false} DetailsFindTheLink(ums: seq<Row<UniversityMajor>>, x: Row<UniversityMajor>)
    requires UniqueBy(ums, PairOf) && x in ums
    ensures GetUniversityMajorDetails(ums, x.val.universityId, x.val.majorId) == Some(x)
  {
    var r := GetUniversityMajorDetails(ums, x.val.universityId, x.val.majorId).value;
    var i :| 0 <= i < |ums| && ums[i] == r;
    var j :| 0 <= j < |ums| && ums[j] == x;
    assert PairOf(ums[i].val) == PairOf(ums[j].val);
  }

  /** The row a create stores: the pair and study levels as given, every
      omitted or null optional column NULL. */
  function NewUniversityMajor(input: CreateUniversityMajorInput): (m: UniversityMajor)
    ensures m.universityId == input.universityId && m.majorId == input.majorId
    ensures m.studyLevels == input.studyLevels
    ensures m.tuitionFeeMin == OrNull(input.tuitionFeeMin) && m.tuitionFeeMax == OrNull(input.tuitionFeeMax)
    ensures m.currency == OrNull(input.currency) && m.durationYears == OrNull(input.durationYears)
    ensures m.requirements == LocOrNull(input.requirements)
  {
    UniversityMajor(input.universityId, input.majorId, input.studyLevels,
                    OrNull(input.tuitionFeeMin), OrNull(input.tuitionFeeMax), OrNull(input.currency),
                    OrNull(input.durationYears), LocOrNull(input.requirements))
  }

  /** A patch leaves the pair alone: only the details of a link change. */
  function ApplyLinkPatch(m: UniversityMajor, p: UniversityMajorPatch): (r: UniversityMajor)
    ensures PairOf(r) == PairOf(m)
  {
    m.(studyLevels := Patch(p.studyLevels, m.studyLevels),
       tuitionFeeMin := Patch(p.tuitionFeeMin, m.tuitionFeeMin),
       tuitionFeeMax := Patch(p.tuitionFeeMax, m.tuitionFeeMax),
       currency := Patch(p.currency, m.currency),
       durationYears := Patch(p.durationYears, m.durationYears),
       requirements := LocPatch(p.requirements, m.requirements))
  }

  /** The patch of an update called with `{}`. */
  function NoLinkChanges(): UniversityMajorPatch
  {
    UniversityMajorPatch(None, None, None, None, None, LocOmitted())
  }

  /** An empty patch changes nothing and a patch applied twice changes
      nothing further. */
  lemma LinkPatchLaws(m: UniversityMajor, p: UniversityMajorPatch)
    ensures ApplyLinkPatch(m, NoLinkChanges()) == m
    ensures ApplyLinkPatch(ApplyLinkPatch(m, p), p) == ApplyLinkPatch(m, p)
  {
    LocPatchLaws(p.requirements, LocOmitted(), m.requirements);
  }

  // ------------------------------------------------------------- writes

  /** What `createUniversityMajor` does when the write is stamped `now`:
      the university must exist, then the major; a tuition fee outside
      `numeric(10,2)` is refused before the pair index is consulted; a pair
      already linked is refused; otherwise the link is appended. */
  function CreateUniversityMajorSpec(t: Table<UniversityMajor>, us: seq<Row<University>>, ms: seq<Row<Major>>,
                                     input: CreateUniversityMajorInput, now: nat): (Result<Row<UniversityMajor>, Error>, Table<UniversityMajor>)
  {
    var v := NewUniversityMajor(input);
    if !HasId(us, input.universityId) then (Failure(MissingReference(UniversityEntity, input.universityId)), t)
    else if !HasId(ms, input.majorId) then (Failure(MissingReference(MajorEntity, input.majorId)), t)
    else if !FitsNumeric(v.tuitionFeeMin) || !FitsNumeric(v.tuitionFeeMax) then (Failure(NumericOverflow), t)
    else if KeyTaken(t.rows, PairOf, PairOf(v)) then (Failure(UniqueViolation(UniversityMajorPair)), t)
    else (Success(Row(t.nextId, now, now, v)), Insert(t, v, now))
  }

  /** What `updateUniversityMajor` does: a pair with no link gives null; an
      empty patch gives the current row untouched; a tuition fee outside
      `numeric(10,2)` is refused; otherwise the patched row replaces the old
      one, stamped `now`. */
  function UpdateUniversityMajorSpec(t: Table<UniversityMajor>, universityId: int, majorId: int,
                                     p: UniversityMajorPatch, now: nat): (Result<Option<Row<UniversityMajor>>, Error>, Table<UniversityMajor>)
  {
    match First(t.rows, IsPair(universityId, majorId))
    case None => (Success(None), t)
    case Some(before) =>
      if p == NoLinkChanges() then (Success(Some(before)), t)
      else
        var after := ApplyLinkPatch(before.val, p);
        if !FitsNumeric(after.tuitionFeeMin) || !FitsNumeric(after.tuitionFeeMax) then (Failure(NumericOverflow), t)
        else (Success(Some(before.(val := after, updatedAt := now))), Table(Update(t.rows, before.id, after, now), t.nextId))
  }

  /** What `deleteUniversityMajor` does: removes the link of the pair and
      says whether there was one. */
  function DeleteUniversityMajorSpec(t: Table<UniversityMajor>, universityId: int, majorId: int): (bool, Table<UniversityMajor>)
  {
    match First(t.rows, IsPair(universityId, majorId))
    case None => (false, t)
    case Some(x) => (true, Table(Remove(t.rows, x.id), t.nextId))
  }

  method CreateUniversityMajor(db: Db, input: CreateUniversityMajorInput) returns (res: Result<Row<UniversityMajor>, Error>)
    requires db.Valid()
    modifies db`universityMajors, db`clock
    ensures db.Valid()
    ensures (res, db.universityMajors) == CreateUniversityMajorSpec(old(db.universityMajors), db.universities.rows, db.majors.rows, input, old(db.clock) + 1)
    ensures db.clock == if res.Success? then old(db.clock) + 1 else old(db.clock)
  {
    var v := NewUniversityMajor(input);
    if !HasId(db.universities.rows, input.universityId) {
      return Failure(MissingReference(UniversityEntity, input.universityId));
    }
    if !HasId(db.majors.rows, input.majorId) {
      return Failure(MissingReference(MajorEntity, input.majorId));
    }
    if !FitsNumeric(v.tuitionFeeMin) || !FitsNumeric(v.tuitionFeeMax) {
      return Failure(NumericOverflow);
    }
    if KeyTaken(db.universityMajors.rows, PairOf, PairOf(v)) {
      return Failure(UniqueViolation(UniversityMajorPair));
    }
    var now := db.clock + 1;
    ghost var s := db.Contents();
    var inserted := Insert(db.universityMajors, v, now);
    InsertKeepsConsistent(s, v, inserted, now);
    res := Success(Row(db.universityMajors.nextId, now, now, v));
    db.universityMajors, db.clock := inserted, now;
    assert db.Contents() == s.(universityMajors := inserted, clock := now);
  }

  method UpdateUniversityMajor(db: Db, universityId: int, majorId: int, p: UniversityMajorPatch)
    returns (res: Result<Option<Row<UniversityMajor>>, Error>)
    requires db.Valid()
    modifies db`universityMajors, db`clock
    ensures db.Valid()
    ensures (res, db.universityMajors) == UpdateUniversityMajorSpec(old(db.universityMajors), universityId, majorId, p, old(db.clock) + 1)
    ensures db.clock == if res.Success? && res.value.Some? && p != NoLinkChanges() then old(db.clock) + 1 else old(db.clock)
  {
    var found := First(db.universityMajors.rows, IsPair(universityId, majorId));
    if found.None? {
      return Success(None);
    }
    var before := found.value;
    if p == NoLinkChanges() {
      return Success(Some(before));
    }
    var after := ApplyLinkPatch(before.val, p);
    if !FitsNumeric(after.tuitionFeeMin) || !FitsNumeric(after.tuitionFeeMax) {
      return Failure(NumericOverflow);
    }
    var now := db.clock + 1;
    ghost var s := db.Contents();
    var updated := Table(Update(db.universityMajors.rows, before.id, after, now), db.universityMajors.nextId);
    UpdateKeepsConsistent(s, before, after, updated, now);
    db.universityMajors, db.clock := updated, now;
    assert db.Contents() == s.(universityMajors := updated, clock := now);
    res := Success(Some(before.(val := after, updatedAt := now)));
  }

  method DeleteUniversityMajor(db: Db, universityId: int, majorId: int) returns (existed: bool)
    requires db.Valid()
    modifies db`universityMajors
    ensures db.Valid()
    ensures (existed, db.universityMajors) == DeleteUniversityMajorSpec(old(db.universityMajors), universityId, majorId)
  {
    var found := First(db.universityMajors.rows, IsPair(universityId, majorId));
    if found.None? {
      return false;
    }
    ghost var s := db.Contents();
    var remaining := Table(Remove(db.universityMajors.rows, found.value.id), db.universityMajors.nextId);
    RemoveKeepsConsistent(s, found.value.id, remaining);
    db.universityMajors := remaining;
    assert db.Contents() == s.(universityMajors := remaining, clock := s.clock);
    existed := true;
  }

  // ------------------------------------------------- what the writes promise

  /** A create succeeds exactly when both ends exist, the fees fit and the
      pair is new; the link it returns is then what the pair's details give,
      carrying the create mapping of the input, and every earlier link is
      still found. */
  lemma {:induction false} CreateUniversityMajorFacts(t: Table<UniversityMajor>, clock: nat, us: seq<Row<University>>,
                                                      ms: seq<Row<Major>>, input: CreateUniversityMajorInput)
    requires WellFormed(t, clock) && UniqueBy(t.rows, PairOf)
    ensures var (r, t') := CreateUniversityMajorSpec(t, us, ms, input, clock + 1);
      var v := NewUniversityMajor(input);
      && (r.Success? <==>
            HasId(us, input.universityId) && HasId(ms, input.majorId)
            && FitsNumeric(v.tuitionFeeMin) && FitsNumeric(v.tuitionFeeMax)
            && GetUniversityMajorDetails(t.rows, input.universityId, input.majorId).None?)
      && (!HasId(us, input.universityId) ==> r == Failure(MissingReference(UniversityEntity, input.universityId)))
      && (r.Failure? ==> t' == t)
      && (r.Success? ==>
            && r.value.val == v
            && GetUniversityMajorDetails(t'.rows, input.universityId, input.majorId) == Some(r.value)
            && UniqueBy(t'.rows, PairOf)
            && forall x | x in t.rows :: GetUniversityMajorDetails(t'.rows, x.val.universityId, x.val.majorId) == Some(x))
  {
    var (r, t') := CreateUniversityMajorSpec(t, us, ms, input, clock + 1);
    if r.Success? {
      var v := NewUniversityMajor(input);
      InsertKeepsUnique(t, PairOf, v, clock + 1);
      assert r.value in t'.rows;
      DetailsFindTheLink(t'.rows, r.value);
      forall x | x in t.rows
        ensures GetUniversityMajorDetails(t'.rows, x.val.universityId, x.val.majorId) == Some(x)
      {
        assert x in t'.rows;
        DetailsFindTheLink(t'.rows, x);
      }
    }
  }

  /** An update of a linked pair changes that link only: the patched row,
      same pair, unchanged `created_at`, strictly later `updated_at`; an
      empty patch returns the row as stored; a missing pair gives null. */
  lemma {:induction false} UpdateUniversityMajorFacts(t: Table<UniversityMajor>, clock: nat, universityId: int, majorId: int,
                                                      p: UniversityMajorPatch)
    requires WellFormed(t, clock) && UniqueBy(t.rows, PairOf)
    ensures var (r, t') := UpdateUniversityMajorSpec(t, universityId, majorId, p, clock + 1);
      var before := GetUniversityMajorDetails(t.rows, universityId, majorId);
      && (before.None? ==> r == Success(None) && t' == t)
      && (before.Some? && p == NoLinkChanges() ==> r == Success(before) && t' == t)
      && (r.Failure? ==> r == Failure(NumericOverflow) && t' == t)
      && (r.Success? && r.value.Some? && p != NoLinkChanges() ==>
            && r.value.value.val == ApplyLinkPatch(before.value.val, p)
            && r.value.value.createdAt == before.value.createdAt
            && r.value.value.updatedAt > before.value.updatedAt
            && GetUniversityMajorDetails(t'.rows, universityId, majorId) == r.value
            && forall x | x in t.rows && x != before.value ::
                 GetUniversityMajorDetails(t'.rows, x.val.universityId, x.val.majorId) == Some(x))
  {
    var (r, t') := UpdateUniversityMajorSpec(t, universityId, majorId, p, clock + 1);
    if r.Success? && r.value.Some? && p != NoLinkChanges() {
      var before := First(t.rows, IsPair(universityId, majorId)).value;
      LinksAfterUpdate(t.rows, before, ApplyLinkPatch(before.val, p), clock + 1);
    }
  }

  /** Rewriting the details of one link keeps every pair finding its link. */
  lemma LinksAfterUpdate(rows: seq<Row<UniversityMajor>>, before: Row<UniversityMajor>, after: UniversityMajor, now: nat)
    requires Chrono(rows) && UniqueBy(rows, PairOf) && before in rows && PairOf(after) == PairOf(before.val)
    ensures var rows' := Update(rows, before.id, after, now);
      && GetUniversityMajorDetails(rows', after.universityId, after.majorId) == Some(before.(val := after, updatedAt := now))
      && forall x | x in rows && x != before :: GetUniversityMajorDetails(rows', x.val.universityId, x.val.majorId) == Some(x)
  {
    var rows' := Update(rows, before.id, after, now);
    OwnKeyFree(rows, PairOf, before);
    UpdateKeepsUnique(rows, PairOf, before.id, after, now);
    var j :| 0 <= j < |rows| && rows[j] == before;
    assert rows'[j] == before.(val := after, updatedAt := now);
    DetailsFindTheLink(rows', rows'[j]);
    forall x | x in rows && x != before
      ensures GetUniversityMajorDetails(rows', x.val.universityId, x.val.majorId) == Some(x)
    {
      var i :| 0 <= i < |rows| && rows[i] == x;
      ChronoIdsDistinct(rows, i, j);
      assert rows'[i] == x;
      DetailsFindTheLink(rows', x);
    }
  }

  /** After a delete the pair has no link, the result says whether it had
      one, every other link is still found, and a second delete is false. */
  lemma {:induction false} DeleteUniversityMajorFacts(t: Table<UniversityMajor>, universityId: int, majorId: int)
    requires Chrono(t.rows) && UniqueBy(t.rows, PairOf)
    ensures var (r, t') := DeleteUniversityMajorSpec(t, universityId, majorId);
      && r == GetUniversityMajorDetails(t.rows, universityId, majorId).Some?
      && GetUniversityMajorDetails(t'.rows, universityId, majorId).None?
      && DeleteUniversityMajorSpec(t', universityId, majorId) == (false, t')
      && forall x | x in t.rows && PairOf(x.val) != (universityId, majorId) ::
           GetUniversityMajorDetails(t'.rows, x.val.universityId, x.val.majorId) == Some(x)
  {
    var (r, t') := DeleteUniversityMajorSpec(t, universityId, majorId);
    var found := First(t.rows, IsPair(universityId, majorId));
    if found.Some? {
      var gone := found.value;
      RemoveKeepsUnique(t.rows, PairOf, gone.id);
      OwnKeyFree(t.rows, PairOf, gone);
      forall x | x in t'.rows ensures !IsPair(universityId, majorId)(x) {
        assert x in t.rows && x.id != gone.id;
      }
      forall x | x in t.rows && PairOf(x.val) != (universityId, majorId)
        ensures GetUniversityMajorDetails(t'.rows, x.val.universityId, x.val.majorId) == Some(x)
      {
        assert x.id != gone.id;
        DetailsFindTheLink(t'.rows, x);
      }
    } else {
      forall x | x in t.rows && PairOf(x.val) != (universityId, majorId)
        ensures GetUniversityMajorDetails(t'.rows, x.val.universityId, x.val.majorId) == Some(x)
      {
        DetailsFindTheLink(t'.rows, x);
      }
    }
  }

  // ------------------------------------------- the store invariant survives

  lemma InsertKeepsConsistent(s: Snapshot, v: UniversityMajor, t: Table<UniversityMajor>, now: nat)
    requires Consistent(s) && !KeyTaken(s.universityMajors.rows, PairOf, PairOf(v))
    requires HasId(s.universities.rows, v.universityId) && HasId(s.majors.rows, v.majorId)
    requires FitsNumeric(v.tuitionFeeMin) && FitsNumeric(v.tuitionFeeMax)
    requires now == s.clock + 1 && t == Insert(s.universityMajors, v, now)
    ensures Consistent(s.(universityMajors := t, clock := now))
  {
    WellFormedLater(s.universityMajors, s.clock, now);
    InsertWellFormed(s.universityMajors, v, now);
    InsertKeepsUnique(s.universityMajors, PairOf, v, now);
    NewLinkOk(s.universityMajors.rows, s.universities.rows, s.majors.rows, Row(s.universityMajors.nextId, now, now, v));
    UniversityMajorsReplaced(s, t, now);
  }

  /** A link to two existing rows, with fees that fit, keeps the link
      table's references and fees valid. */
  lemma NewLinkOk(ums: seq<Row<UniversityMajor>>, us: seq<Row<University>>, ms: seq<Row<Major>>, x: Row<UniversityMajor>)
    requires UniversityMajorRefsOk(ums, us, ms) && TuitionFits(ums)
    requires HasId(us, x.val.universityId) && HasId(ms, x.val.majorId)
    requires FitsNumeric(x.val.tuitionFeeMin) && FitsNumeric(x.val.tuitionFeeMax)
    ensures UniversityMajorRefsOk(ums + [x], us, ms) && TuitionFits(ums + [x])
  {
  }

  lemma UpdateKeepsConsistent(s: Snapshot, before: Row<UniversityMajor>, v: UniversityMajor, t: Table<UniversityMajor>, now: nat)
    requires Consistent(s) && before in s.universityMajors.rows && PairOf(v) == PairOf(before.val)
    requires FitsNumeric(v.tuitionFeeMin) && FitsNumeric(v.tuitionFeeMax)
    requires now == s.clock + 1 && t == Table(Update(s.universityMajors.rows, before.id, v, now), s.universityMajors.nextId)
    ensures Consistent(s.(universityMajors := t, clock := now))
  {
    WellFormedLater(s.universityMajors, s.clock, now);
    UpdateWellFormed(s.universityMajors, before.id, v, now);
    OwnKeyFree(s.universityMajors.rows, PairOf, before);
    UpdateKeepsUnique(s.universityMajors.rows, PairOf, before.id, v, now);
    UpdateMembers(s.universityMajors.rows, before.id, v, now);
    UniversityMajorsReplaced(s, t, now);
  }

  lemma RemoveKeepsConsistent(s: Snapshot, id: int, t: Table<UniversityMajor>)
    requires Consistent(s)
    requires t == Table(Remove(s.universityMajors.rows, id), s.universityMajors.nextId)
    ensures Consistent(s.(universityMajors := t, clock := s.clock))
  {
    RemoveWellFormed(s.universityMajors, id, s.clock);
    RemoveKeepsUnique(s.universityMajors.rows, PairOf, id);
    UniversityMajorsReplaced(s, t, s.clock);
  }
}
