/** Frequently asked questions: the list ordered by `order_index`
    (optionally one category, optionally ACTIVE only), lookup by id, create,
    update, delete, and a bulk reorder that either applies every new index
    or, when an id is unknown, none. */
module Faqs {
  import opened Wrappers
  import opened Schema
  import opened Tables
  import opened DbSchema
  import opened Fields
  import opened Store

  // ----------------------------------------------------------- ordering

  /** `a` may come before `b` under `ORDER BY order_index, id`. */
  predicate NotAfter(a: Row<Faq>, b: Row<Faq>)
  {
    a.val.orderIndex < b.val.orderIndex || (a.val.orderIndex == b.val.orderIndex && a.id <= b.id)
  }

  predicate ByOrderIndex(s: seq<Row<Faq>>)
  {
    forall i, j | 0 <= i < j < |s| :: NotAfter(s[i], s[j])
  }

  /** Puts `x` into an ordered list at its place. */
  function InsertInOrder(x: Row<Faq>, s: seq<Row<Faq>>): (r: seq<Row<Faq>>)
    requires ByOrderIndex(s)
    ensures ByOrderIndex(r)
    ensures multiset(r) == multiset(s) + multiset{x}
  {
    if s == [] then [x]
    else if NotAfter(x, s[0]) then
      PrependKeepsOrder(x, s);
      [x] + s
    else
      var rest := InsertInOrder(x, s[1..]);
      assert s == [s[0]] + s[1..];
      PrependKeepsOrder(s[0], rest);
      [s[0]] + rest
  }

  /** A row no later than everything in an ordered list may lead it. */
  lemma PrependKeepsOrder(x: Row<Faq>, s: seq<Row<Faq>>)
    requires ByOrderIndex(s)
    requires forall y | y in multiset(s) :: NotAfter(x, y)
    ensures ByOrderIndex([x] + s)
  {
    forall j | 0 < j < |s| + 1 ensures NotAfter(x, ([x] + s)[j]) {
      assert s[j - 1] in multiset(s);
    }
  }

  /** The rows in `ORDER BY order_index, id` order: an ordered permutation
      of the input. */
  function SortByOrderIndex(s: seq<Row<Faq>>): (r: seq<Row<Faq>>)
    ensures ByOrderIndex(r)
    ensures multiset(r) == multiset(s)
  {
    if s == [] then []
    else
      assert s == [s[0]] + s[1..];
      InsertInOrder(s[0], SortByOrderIndex(s[1..]))
  }

  /** Sorting keeps exactly the rows it was given. */
  lemma SortKeepsRows(s: seq<Row<Faq>>)
    ensures |SortByOrderIndex(s)| == |s|
    ensures forall x :: x in SortByOrderIndex(s) <==> x in s
  {
    var r := SortByOrderIndex(s);
    assert |multiset(r)| == |multiset(s)|;
    forall x ensures x in r <==> x in s {
      assert x in r <==> x in multiset(r);
      assert x in s <==> x in multiset(s);
    }
  }

  // ------------------------------------------------------------- reads

  function InCategory(category: Option<string>): Row<Faq> -> bool
  {
    (r: Row<Faq>) => category.None? || r.val.category == Some(category.value)
  }

  function ActiveInCategory(category: Option<string>): Row<Faq> -> bool
  {
    (r: Row<Faq>) => r.val.status == Active && (category.None? || r.val.category == Some(category.value))
  }

  /** Every FAQ, or those of one category, by `order_index`. */
  function GetFaqs(rows: seq<Row<Faq>>, category: Option<string>): (r: seq<Row<Faq>>)
    ensures ByOrderIndex(r)
    ensures multiset(r) == multiset(Where(rows, InCategory(category)))
  {
    SortByOrderIndex(Where(rows, InCategory(category)))
  }

  /** The ACTIVE FAQs, or those of one category, by `order_index`, for the
      public site. */
  function GetActiveFaqs(rows: seq<Row<Faq>>, category: Option<string>): (r: seq<Row<Faq>>)
    ensures ByOrderIndex(r)
    ensures multiset(r) == multiset(Where(rows, ActiveInCategory(category)))
  {
    SortByOrderIndex(Where(rows, ActiveInCategory(category)))
  }

  /** The lists hold exactly the FAQs their filters select. */
  lemma {:induction false} ListsSelectTheirFaqs(rows: seq<Row<Faq>>, category: Option<string>, x: Row<Faq>)
    ensures x in GetFaqs(rows, category) <==>
      x in rows && (category.None? || x.val.category == Some(category.value))
    ensures x in GetActiveFaqs(rows, category) <==>
      x in rows && x.val.status == Active && (category.None? || x.val.category == Some(category.value))
  {
    SortKeepsRows(Where(rows, InCategory(category)));
    SortKeepsRows(Where(rows, ActiveInCategory(category)));
  }

  function GetFaqById(rows: seq<Row<Faq>>, id: int): (r: Option<Row<Faq>>)
    ensures r.None? <==> !HasId(rows, id)
    ensures r.Some? ==> r.value in rows && r.value.id == id
  {
    Find(rows, id)
  }

  // ------------------------------------------------------------- writes

  /** The row a create stores: texts as given, `order_index` 0 and status
      ACTIVE unless given, a null or omitted category NULL. */
  function NewFaq(input: CreateFaqInput): (f: Faq)
    ensures f.question == input.question && f.answer == input.answer
    ensures f.orderIndex == input.orderIndex.GetOr(0)
    ensures f.category == OrNull(input.category)
    ensures f.status == input.status.GetOr(Active)
  {
    Faq(input.question, input.answer, input.orderIndex.GetOr(0), OrNull(input.category), input.status.GetOr(Active))
  }

  function ApplyFaqPatch(f: Faq, p: FaqPatch): Faq
  {
    Faq(LocPatch(p.question, f.question), LocPatch(p.answer, f.answer), Patch(p.orderIndex, f.orderIndex),
        Patch(p.category, f.category), Patch(p.status, f.status))
  }

  function NoFaqChanges(): FaqPatch
  {
    FaqPatch(LocOmitted(), LocOmitted(), None, None, None)
  }

  /** An update naming no field changes nothing, and repeating an update
      changes nothing further. */
  lemma FaqPatchLaws(f: Faq, p: FaqPatch)
    ensures ApplyFaqPatch(f, NoFaqChanges()) == f
    ensures ApplyFaqPatch(ApplyFaqPatch(f, p), p) == ApplyFaqPatch(f, p)
  {
    LocPatchLaws(p.question, LocOmitted(), f.question);
    LocPatchLaws(p.answer, LocOmitted(), f.answer);
  }

  /** What `createFAQ` does when the write is stamped `now`. */
  function CreateFaqSpec(t: Table<Faq>, input: CreateFaqInput, now: nat): (Row<Faq>, Table<Faq>)
  {
    (Row(t.nextId, now, now, NewFaq(input)), Insert(t, NewFaq(input), now))
  }

  /** What `updateFAQ` does: null for an unknown id; otherwise the patched
      row replaces the old one, stamped `now`. */
  function UpdateFaqSpec(t: Table<Faq>, id: int, p: FaqPatch, now: nat): (Option<Row<Faq>>, Table<Faq>)
  {
    match Find(t.rows, id)
    case None => (None, t)
    case Some(before) =>
      var after := ApplyFaqPatch(before.val, p);
      (Some(before.(val := after, updatedAt := now)), Table(Update(t.rows, id, after, now), t.nextId))
  }

  function DeleteFaqSpec(t: Table<Faq>, id: int): (bool, Table<Faq>)
  {
    (HasId(t.rows, id), Table(Remove(t.rows, id), t.nextId))
  }

  method CreateFaq(db: Db, input: CreateFaqInput) returns (row: Row<Faq>)
    requires db.Valid()
    modifies db`faqs, db`clock
    ensures db.Valid()
    ensures (row, db.faqs) == CreateFaqSpec(old(db.faqs), input, old(db.clock) + 1)
    ensures db.clock == old(db.clock) + 1
  {
    var now := db.clock + 1;
    var v := NewFaq(input);
    ghost var s := db.Contents();
    var inserted := Insert(db.faqs, v, now);
    WellFormedLater(s.faqs, s.clock, now);
    InsertWellFormed(s.faqs, v, now);
    FaqsReplaced(s, inserted, now);
    row := Row(db.faqs.nextId, now, now, v);
    db.faqs, db.clock := inserted, now;
    assert db.Contents() == s.(faqs := inserted, clock := now);
  }

  method UpdateFaq(db: Db, id: int, p: FaqPatch) returns (res: Option<Row<Faq>>)
    requires db.Valid()
    modifies db`faqs, db`clock
    ensures db.Valid()
    ensures (res, db.faqs) == UpdateFaqSpec(old(db.faqs), id, p, old(db.clock) + 1)
    ensures db.clock == if res.Some? then old(db.clock) + 1 else old(db.clock)
  {
    var found := Find(db.faqs.rows, id);
    if found.None? {
      return None;
    }
    var before := found.value;
    var after := ApplyFaqPatch(before.val, p);
    var now := db.clock + 1;
    ghost var s := db.Contents();
    var updated := Table(Update(db.faqs.rows, id, after, now), db.faqs.nextId);
    WellFormedLater(s.faqs, s.clock, now);
    UpdateWellFormed(s.faqs, id, after, now);
    FaqsReplaced(s, updated, now);
    db.faqs, db.clock := updated, now;
    assert db.Contents() == s.(faqs := updated, clock := now);
    res := Some(before.(val := after, updatedAt := now));
  }

  method DeleteFaq(db: Db, id: int) returns (existed: bool)
    requires db.Valid()
    modifies db`faqs
    ensures db.Valid()
    ensures (existed, db.faqs) == DeleteFaqSpec(old(db.faqs), id)
  {
    existed := HasId(db.faqs.rows, id);
    ghost var s := db.Contents();
    var remaining := Table(Remove(db.faqs.rows, id), db.faqs.nextId);
    RemoveWellFormed(s.faqs, id, s.clock);
    FaqsReplaced(s, remaining, s.clock);
    db.faqs := remaining;
    assert db.Contents() == s.(faqs := remaining, clock := s.clock);
  }

  /** A create appends one row found by its fresh id, every earlier FAQ
      still in place; an update changes only the row it names. */
  lemma {:induction false} FaqWriteFacts(t: Table<Faq>, clock: nat, input: CreateFaqInput, id: int, p: FaqPatch)
    requires WellFormed(t, clock)
    ensures var (r, t') := CreateFaqSpec(t, input, clock + 1);
      && r.val == NewFaq(input) && !HasId(t.rows, r.id)
      && GetFaqById(t'.rows, r.id) == Some(r)
      && forall x | x in t.rows :: GetFaqById(t'.rows, x.id) == Some(x)
    ensures var (u, t') := UpdateFaqSpec(t, id, p, clock + 1);
      && (u.None? <==> !HasId(t.rows, id))
      && (u.None? ==> t' == t)
      && (u.Some? ==>
            var before := GetFaqById(t.rows, id).value;
            && u.value.val == ApplyFaqPatch(before.val, p)
            && u.value.createdAt == before.createdAt && u.value.updatedAt > before.updatedAt
            && GetFaqById(t'.rows, id) == u
            && forall x | x in t.rows && x.id != id :: GetFaqById(t'.rows, x.id) == Some(x))
  {
    WellFormedLater(t, clock, clock + 1);
    FindAfterInsert(t, NewFaq(input), clock + 1);
    if HasId(t.rows, id) {
      var before := Find(t.rows, id).value;
      FindAfterUpdate(t.rows, before, ApplyFaqPatch(before.val, p), clock + 1);
    }
  }

  /** After a delete the id is gone, the result says whether it was there,
      and every other FAQ stays; deleting it again reports false and
      changes nothing. */
  lemma {:induction false} DeleteFaqFacts(t: Table<Faq>, id: int)
    requires Chrono(t.rows)
    ensures var (r, t') := DeleteFaqSpec(t, id);
      && r == GetFaqById(t.rows, id).Some?
      && GetFaqById(t'.rows, id).None?
      && (forall x | x in t.rows && x.id != id :: GetFaqById(t'.rows, x.id) == Some(x))
      && DeleteFaqSpec(t', id) == (false, t')
  {
    FindAfterRemove(t.rows, id);
  }

  // -------------------------------------------------------------- reorder

  /** One entry of the reorder request: the FAQ and its new index. */
  datatype FaqOrder = FaqOrder(id: int, orderIndex: int)

  /** The index the last entry for `id` asks for; later entries win. */
  function LastOrderFor(es: seq<FaqOrder>, id: int): (r: Option<int>)
    ensures r.None? <==> forall e | e in es :: e.id != id
    ensures r.Some? ==> FaqOrder(id, r.value) in es
  {
    if es == [] then None
    else if es[|es| - 1].id == id then Some(es[|es| - 1].orderIndex)
    else
      var r := LastOrderFor(es[..|es| - 1], id);
      assert es == es[..|es| - 1] + [es[|es| - 1]];
      r
  }

  /** A row after the whole request: its last requested index, stamped
      `now`, or the row as it was when the request does not name it. */
  function Reordered(x: Row<Faq>, es: seq<FaqOrder>, now: nat): Row<Faq>
  {
    match LastOrderFor(es, x.id)
    case None => x
    case Some(k) => x.(val := x.val.(orderIndex := k), updatedAt := now)
  }

  /** One entry applied to one row: `SET order_index = k, updated_at = now
      WHERE id = e.id`. */
  function SetOne(x: Row<Faq>, e: FaqOrder, now: nat): Row<Faq>
  {
    if x.id == e.id then x.(val := x.val.(orderIndex := e.orderIndex), updatedAt := now) else x
  }

  /** One entry applied to the whole table. */
  function SetOrderIndex(s: seq<Row<Faq>>, e: FaqOrder, now: nat): (r: seq<Row<Faq>>)
    ensures |r| == |s|
    ensures forall i | 0 <= i < |s| :: r[i] == SetOne(s[i], e, now)
  {
    seq(|s|, i requires 0 <= i < |s| => SetOne(s[i], e, now))
  }

  /** The entries applied one after the other, in request order. */
  function ReorderAll(s: seq<Row<Faq>>, es: seq<FaqOrder>, now: nat): seq<Row<Faq>>
    decreases |es|
  {
    if es == [] then s
    else SetOrderIndex(ReorderAll(s, es[..|es| - 1], now), es[|es| - 1], now)
  }

  /** Applying the entries one by one is the same as giving each row its
      last requested index: rows stay in place and keep their ids. */
  lemma {:induction false} ReorderIsPointwise(s: seq<Row<Faq>>, es: seq<FaqOrder>, now: nat)
    ensures |ReorderAll(s, es, now)| == |s|
    ensures forall i | 0 <= i < |s| :: ReorderAll(s, es, now)[i] == Reordered(s[i], es, now)
    decreases |es|
  {
    if es != [] {
      var p := es[..|es| - 1];
      var last := es[|es| - 1];
      ReorderIsPointwise(s, p, now);
      assert es == p + [last];
      forall i | 0 <= i < |s| ensures ReorderAll(s, es, now)[i] == Reordered(s[i], es, now) {
        assert ReorderAll(s, p, now)[i].id == s[i].id;
      }
    }
  }

  /** All or nothing: an unknown id anywhere in the request refuses the
      whole request; an empty request succeeds without writing; otherwise
      every entry is applied, stamped `now`. */
  function ReorderFaqsSpec(t: Table<Faq>, es: seq<FaqOrder>, now: nat): (bool, Table<Faq>)
  {
    if exists e | e in es :: !HasId(t.rows, e.id) then (false, t)
    else if es == [] then (true, t)
    else (true, Table(ReorderAll(t.rows, es, now), t.nextId))
  }

  method ReorderFaqs(db: Db, es: seq<FaqOrder>) returns (ok: bool)
    requires db.Valid()
    modifies db`faqs, db`clock
    ensures db.Valid()
    ensures (ok, db.faqs) == ReorderFaqsSpec(old(db.faqs), es, old(db.clock) + 1)
    ensures db.clock == if ok && es != [] then old(db.clock) + 1 else old(db.clock)
  {
    var i := 0;
    while i < |es|
      invariant 0 <= i <= |es|
      invariant forall k | 0 <= k < i :: HasId(db.faqs.rows, es[k].id)
    {
      if !HasId(db.faqs.rows, es[i].id) {
        assert es[i] in es;
        return false;
      }
      i := i + 1;
    }
    if es == [] {
      return true;
    }
    var now := db.clock + 1;
    var rows := db.faqs.rows;
    i := 0;
    while i < |es|
      invariant 0 <= i <= |es|
      invariant rows == ReorderAll(db.faqs.rows, es[..i], now)
    {
      assert es[..i + 1][..i] == es[..i];
      rows := SetOrderIndex(rows, es[i], now);
      i := i + 1;
    }
    assert es[..|es|] == es;
    ghost var s := db.Contents();
    var reordered := Table(rows, db.faqs.nextId);
    ReorderWellFormed(s.faqs, s.clock, es, now);
    FaqsReplaced(s, reordered, now);
    db.faqs, db.clock := reordered, now;
    assert db.Contents() == s.(faqs := reordered, clock := now);
    ok := true;
  }

  lemma ReorderWellFormed(t: Table<Faq>, clock: nat, es: seq<FaqOrder>, now: nat)
    requires WellFormed(t, clock) && clock < now
    ensures WellFormed(Table(ReorderAll(t.rows, es, now), t.nextId), now)
  {
    var r := ReorderAll(t.rows, es, now);
    ReorderIsPointwise(t.rows, es, now);
    forall i, j | 0 <= i < j < |r| ensures Precedes(r[i], r[j]) {
      assert Precedes(t.rows[i], t.rows[j]);
    }
    forall x | x in r ensures 1 <= x.id < t.nextId && x.createdAt <= x.updatedAt <= now {
      var i :| 0 <= i < |r| && r[i] == x;
      assert t.rows[i] in t.rows;
    }
  }

  /** A successful reorder gives every named FAQ the index of the last entry
      naming it and a strictly later `updated_at`, keeps every other column
      and every unnamed FAQ as it was; a refused one changes nothing. */
  lemma {:induction false} ReorderFacts(t: Table<Faq>, clock: nat, es: seq<FaqOrder>)
    requires WellFormed(t, clock)
    ensures var (ok, t') := ReorderFaqsSpec(t, es, clock + 1);
      && (ok <==> forall e | e in es :: HasId(t.rows, e.id))
      && (!ok ==> t' == t)
      && forall x | x in t.rows ::
           var y := GetFaqById(t'.rows, x.id);
           && y.Some?
           && y.value.val == x.val.(orderIndex := y.value.val.orderIndex)
           && y.value.createdAt == x.createdAt
           && (ok && LastOrderFor(es, x.id).Some? ==>
                 y.value.val.orderIndex == LastOrderFor(es, x.id).value && y.value.updatedAt > x.updatedAt)
           && (!ok || LastOrderFor(es, x.id).None? ==> y == Some(x))
  {
    var (ok, t') := ReorderFaqsSpec(t, es, clock + 1);
    if ok && es != [] {
      ReorderedRowsFound(t, clock, es);
    } else {
      forall x | x in t.rows ensures GetFaqById(t'.rows, x.id) == Some(x) {
        FindsTheRow(t.rows, x);
      }
    }
  }

  lemma ReorderedRowsFound(t: Table<Faq>, clock: nat, es: seq<FaqOrder>)
    requires WellFormed(t, clock)
    ensures forall x | x in t.rows ::
      GetFaqById(ReorderAll(t.rows, es, clock + 1), x.id) == Some(Reordered(x, es, clock + 1))
  {
    var r := ReorderAll(t.rows, es, clock + 1);
    ReorderWellFormed(t, clock, es, clock + 1);
    ReorderIsPointwise(t.rows, es, clock + 1);
    forall x | x in t.rows ensures GetFaqById(r, x.id) == Some(Reordered(x, es, clock + 1)) {
      var i :| 0 <= i < |t.rows| && t.rows[i] == x;
      FindsTheRow(r, r[i]);
    }
  }
}
