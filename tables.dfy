/** Tables as the repository sees them: ordered sequences of rows, each with a
    serial id and the `created_at` / `updated_at` columns every table has,
    plus the generic row operations (lookup, insert, update, delete) and the
    facts about them that the store's invariant needs. */
module Tables {
  import opened Wrappers

  /** A stored row: the serial primary key, the two timestamps (instants of
      the store's logical clock) and the entity's own columns. */
  datatype Row<T> = Row(id: nat, createdAt: nat, updatedAt: nat, val: T)

  /** The rows in insertion order and the next value of the id serial. */
  datatype Table<T> = Table(rows: seq<Row<T>>, nextId: nat)

  function EmptyTable<T(==)>(): Table<T>
  {
    Table([], 1)
  }

  /** `a` was inserted before `b`. */
  predicate Precedes<T(==)>(a: Row<T>, b: Row<T>)
  {
    a.id < b.id && a.createdAt <= b.createdAt
  }

  /** Rows appear in insertion order: ids strictly increase and creation
      times never decrease. */
  predicate Chrono<T(==)>(s: seq<Row<T>>)
  {
    forall i, j | 0 <= i < j < |s| :: Precedes(s[i], s[j])
  }

  /** The table-level invariant: insertion order, ids drawn from the serial,
      and no timestamp later than the clock or update earlier than creation. */
  predicate WellFormed<T(==)>(t: Table<T>, clock: nat)
  {
    && Chrono(t.rows)
    && 1 <= t.nextId
    && forall r | r in t.rows :: 1 <= r.id < t.nextId && r.createdAt <= r.updatedAt <= clock
  }

  predicate HasId<T(==)>(s: seq<Row<T>>, id: int)
  {
    exists r | r in s :: r.id == id
  }

  /** Every id of `s` still names a row of `s'`. */
  ghost predicate IdsKept<T>(s: seq<Row<T>>, s': seq<Row<T>>)
  {
    forall id | HasId(s, id) :: HasId(s', id)
  }

  /** No two rows agree on `key`: a unique index. */
  predicate UniqueBy<T(==), K(==)>(s: seq<Row<T>>, key: T -> K)
  {
    forall i, j | 0 <= i < j < |s| :: key(s[i].val) != key(s[j].val)
  }

  predicate KeyTaken<T(==), K(==)>(s: seq<Row<T>>, key: T -> K, k: K)
  {
    exists r | r in s :: key(r.val) == k
  }

  /** `k` is free for the row `id`: no other row holds it. */
  predicate KeyFreeFor<T(==), K(==)>(s: seq<Row<T>>, key: T -> K, k: K, id: int)
  {
    forall r | r in s && r.id != id :: key(r.val) != k
  }

  /** Insertion order keeps ids distinct. */
  lemma ChronoIdsDistinct<T>(s: seq<Row<T>>, i: int, j: int)
    requires Chrono(s) && 0 <= i < |s| && 0 <= j < |s| && i != j
    ensures s[i].id != s[j].id
  {
    if i < j { assert Precedes(s[i], s[j]); } else { assert Precedes(s[j], s[i]); }
  }

  // --------------------------------------------------------------- filters

  /** The rows that satisfy `keep`, in their original order (`WHERE`). */
  function Where<T(==)>(s: seq<Row<T>>, keep: Row<T> -> bool): (r: seq<Row<T>>)
    ensures forall x | x in r :: x in s && keep(x)
    ensures forall x | x in s && keep(x) :: x in r
    ensures |r| <= |s|
    ensures (forall x | x in s :: !keep(x)) ==> r == []
    ensures Chrono(s) ==> Chrono(r)
  {
    if s == [] then []
    else
      var rest := Where(s[1..], keep);
      ChronoCons(s, rest);
      if keep(s[0]) then [s[0]] + rest else rest
  }

  /** A row put in front of rows drawn from later positions keeps the
      insertion order. */
  lemma ChronoCons<T>(s: seq<Row<T>>, rest: seq<Row<T>>)
    requires s != [] && forall x | x in rest :: x in s[1..]
    requires Chrono(s) ==> Chrono(rest)
    ensures forall x | x in s[1..] :: x in s
    ensures Chrono(s) ==> Chrono([s[0]] + rest)
  {
    if Chrono(s) {
      var r := [s[0]] + rest;
      forall i, j | 0 <= i < j < |r| ensures Precedes(r[i], r[j]) {
        if i == 0 {
          assert r[j] == rest[j - 1] && rest[j - 1] in rest;
          var k :| 0 <= k < |s[1..]| && s[1..][k] == r[j];
          assert s[k + 1] == r[j];
        } else {
          assert r[i] == rest[i - 1] && r[j] == rest[j - 1];
        }
      }
    }
  }

  /** Filtering distributes over appending one row. */
  lemma {:induction false} WhereAppend<T>(s: seq<Row<T>>, keep: Row<T> -> bool, x: Row<T>)
    ensures Where(s + [x], keep) == Where(s, keep) + (if keep(x) then [x] else [])
  {
    if s != [] {
      assert (s + [x])[1..] == s[1..] + [x];
      WhereAppend(s[1..], keep, x);
    }
  }

  /** Number of rows satisfying `keep` (`COUNT(*) ... WHERE`). */
  function CountWhere<T(==)>(s: seq<Row<T>>, keep: Row<T> -> bool): nat
  {
    |Where(s, keep)|
  }

  /** The first row that satisfies `p`. */
  function First<T(==)>(s: seq<Row<T>>, p: Row<T> -> bool): (r: Option<Row<T>>)
    ensures r.None? <==> forall x | x in s :: !p(x)
    ensures r.Some? ==> r.value in s && p(r.value)
  {
    if s == [] then None
    else if p(s[0]) then Some(s[0])
    else
      assert forall x | x in s :: x == s[0] || x in s[1..];
      First(s[1..], p)
  }

  /** `SELECT ... WHERE id = $1`. */
  function Find<T(==)>(s: seq<Row<T>>, id: int): (r: Option<Row<T>>)
    ensures r.None? <==> !HasId(s, id)
    ensures r.Some? ==> r.value in s && r.value.id == id
  {
    if s == [] then None
    else if s[0].id == id then Some(s[0])
    else
      assert forall x | x in s :: x == s[0] || x in s[1..];
      Find(s[1..], id)
  }

  /** With distinct ids, lookup by id finds the one row holding it. */
  lemma FindsTheRow<T>(s: seq<Row<T>>, x: Row<T>)
    requires Chrono(s) && x in s
    ensures Find(s, x.id) == Some(x)
  {
    var r := Find(s, x.id);
    var i :| 0 <= i < |s| && s[i] == x;
    var j :| 0 <= j < |s| && s[j] == r.value;
    if i != j { ChronoIdsDistinct(s, i, j); }
  }

  // ---------------------------------------------------------------- writes

  /** `INSERT ... RETURNING *`: the new row takes the next serial id and is
      stamped with `now` for both timestamps. */
  function Insert<T(==)>(t: Table<T>, v: T, now: nat): (u: Table<T>)
    ensures u.rows == t.rows + [Row(t.nextId, now, now, v)]
    ensures u.nextId == t.nextId + 1
  {
    Table(t.rows + [Row(t.nextId, now, now, v)], t.nextId + 1)
  }

  /** `UPDATE ... SET <columns>, updated_at = now WHERE id = $1`. */
  function Update<T(==)>(s: seq<Row<T>>, id: int, v: T, now: nat): (r: seq<Row<T>>)
    ensures |r| == |s|
    ensures forall i | 0 <= i < |s| :: r[i] == (if s[i].id == id then s[i].(val := v, updatedAt := now) else s[i])
  {
    seq(|s|, i requires 0 <= i < |s| => if s[i].id == id then s[i].(val := v, updatedAt := now) else s[i])
  }

  /** `DELETE ... WHERE id = $1`. */
  function Remove<T(==)>(s: seq<Row<T>>, id: int): (r: seq<Row<T>>)
    ensures forall x | x in r :: x in s && x.id != id
    ensures forall x | x in s && x.id != id :: x in r
    ensures Chrono(s) ==> Chrono(r)
  {
    Where(s, (x: Row<T>) => x.id != id)
  }

  // ------------------------------------------------- invariant preservation

  lemma InsertWellFormed<T>(t: Table<T>, v: T, now: nat)
    requires WellFormed(t, now)
    ensures WellFormed(Insert(t, v, now), now)
    ensures Find(Insert(t, v, now).rows, t.nextId) == Some(Row(t.nextId, now, now, v))
  {
    var u := Insert(t, v, now);
    var n := Row(t.nextId, now, now, v);
    forall i, j | 0 <= i < j < |u.rows| ensures Precedes(u.rows[i], u.rows[j]) {
      if j == |t.rows| { assert u.rows[i] in t.rows; }
    }
    assert n in u.rows;
    FindsTheRow(u.rows, n);
  }

  lemma InsertKeepsIds<T>(t: Table<T>, v: T, now: nat)
    ensures IdsKept(t.rows, Insert(t, v, now).rows)
  {
    forall id | HasId(t.rows, id) ensures HasId(Insert(t, v, now).rows, id) {
      var r :| r in t.rows && r.id == id;
      assert r in Insert(t, v, now).rows;
    }
  }

  lemma InsertKeepsUnique<T, K>(t: Table<T>, key: T -> K, v: T, now: nat)
    requires UniqueBy(t.rows, key) && !KeyTaken(t.rows, key, key(v))
    ensures UniqueBy(Insert(t, v, now).rows, key)
  {
    var u := Insert(t, v, now).rows;
    forall i, j | 0 <= i < j < |u| ensures key(u[i].val) != key(u[j].val) {
      if j == |t.rows| { assert u[i] in t.rows; }
    }
  }

  lemma UpdateWellFormed<T>(t: Table<T>, id: int, v: T, now: nat)
    requires WellFormed(t, now)
    ensures WellFormed(Table(Update(t.rows, id, v, now), t.nextId), now)
  {
    var u := Update(t.rows, id, v, now);
    forall r | r in u ensures 1 <= r.id < t.nextId && r.createdAt <= r.updatedAt <= now {
      var i :| 0 <= i < |u| && u[i] == r;
      assert t.rows[i] in t.rows;
    }
    forall i, j | 0 <= i < j < |u| ensures Precedes(u[i], u[j]) {
      assert Precedes(t.rows[i], t.rows[j]);
    }
  }

  /** Every row after an update is an old row or carries the new columns. */
  lemma UpdateMembers<T>(s: seq<Row<T>>, id: int, v: T, now: nat)
    ensures forall x | x in Update(s, id, v, now) :: x in s || x.val == v
  {
    var u := Update(s, id, v, now);
    forall x | x in u ensures x in s || x.val == v {
      var i :| 0 <= i < |u| && u[i] == x;
      assert s[i] in s;
    }
  }

  /** An update changes no id, so every id still names a row. */
  lemma UpdateKeepsIds<T>(s: seq<Row<T>>, id: int, v: T, now: nat)
    ensures IdsKept(s, Update(s, id, v, now)) && IdsKept(Update(s, id, v, now), s)
  {
    var u := Update(s, id, v, now);
    forall k ensures HasId(u, k) <==> HasId(s, k) {
      if HasId(u, k) {
        var r :| r in u && r.id == k;
        var i :| 0 <= i < |u| && u[i] == r;
        assert s[i] in s;
      }
      if HasId(s, k) {
        var r :| r in s && r.id == k;
        var i :| 0 <= i < |s| && s[i] == r;
        assert u[i] in u;
      }
    }
  }

  lemma UpdateKeepsUnique<T, K>(s: seq<Row<T>>, key: T -> K, id: int, v: T, now: nat)
    requires Chrono(s) && UniqueBy(s, key) && KeyFreeFor(s, key, key(v), id)
    ensures UniqueBy(Update(s, id, v, now), key)
  {
    var u := Update(s, id, v, now);
    forall i, j | 0 <= i < j < |u| ensures key(u[i].val) != key(u[j].val) {
      ChronoIdsDistinct(s, i, j);
      assert s[i] in s && s[j] in s;
    }
  }

  /** Lookup after an update gives the row with its new columns and stamp,
      and every other row as it was. */
  lemma FindAfterUpdate<T>(s: seq<Row<T>>, x: Row<T>, v: T, now: nat)
    requires Chrono(s) && x in s
    ensures Chrono(Update(s, x.id, v, now))
    ensures Find(Update(s, x.id, v, now), x.id) == Some(x.(val := v, updatedAt := now))
    ensures forall y | y in s && y.id != x.id :: Find(Update(s, x.id, v, now), y.id) == Some(y)
  {
    var u := Update(s, x.id, v, now);
    forall i, j | 0 <= i < j < |u| ensures Precedes(u[i], u[j]) {
      assert Precedes(s[i], s[j]);
    }
    var i :| 0 <= i < |s| && s[i] == x;
    assert u[i] == x.(val := v, updatedAt := now);
    FindsTheRow(u, u[i]);
    forall y | y in s && y.id != x.id ensures Find(u, y.id) == Some(y) {
      var k :| 0 <= k < |s| && s[k] == y;
      assert u[k] == y;
      FindsTheRow(u, y);
    }
  }

  /** After an insert the new row is found by its fresh id and every earlier
      row by its own id. */
  lemma FindAfterInsert<T>(t: Table<T>, v: T, now: nat)
    requires WellFormed(t, now)
    ensures !HasId(t.rows, t.nextId)
    ensures Find(Insert(t, v, now).rows, t.nextId) == Some(Row(t.nextId, now, now, v))
    ensures forall x | x in t.rows :: Find(Insert(t, v, now).rows, x.id) == Some(x)
  {
    InsertWellFormed(t, v, now);
    var u := Insert(t, v, now).rows;
    forall x | x in t.rows ensures Find(u, x.id) == Some(x) {
      assert x in u;
      FindsTheRow(u, x);
    }
  }

  /** After a delete no row has the id, every other row is still found, and
      deleting again changes nothing. */
  lemma FindAfterRemove<T>(s: seq<Row<T>>, id: int)
    requires Chrono(s)
    ensures !HasId(Remove(s, id), id)
    ensures forall y | y in s && y.id != id :: Find(Remove(s, id), y.id) == Some(y)
    ensures Remove(Remove(s, id), id) == Remove(s, id)
  {
    var r := Remove(s, id);
    RemoveKeepsOtherIds(s, id);
    RemoveNothing(r, id);
    forall y | y in s && y.id != id ensures Find(r, y.id) == Some(y) {
      assert y in r;
      FindsTheRow(r, y);
    }
  }

  lemma RemoveWellFormed<T>(t: Table<T>, id: int, clock: nat)
    requires WellFormed(t, clock)
    ensures WellFormed(Table(Remove(t.rows, id), t.nextId), clock)
  {
  }

  lemma RemoveKeepsUnique<T, K>(s: seq<Row<T>>, key: T -> K, id: int)
    requires Chrono(s) && UniqueBy(s, key)
    ensures UniqueBy(Remove(s, id), key)
  {
    var r := Remove(s, id);
    forall i, j | 0 <= i < j < |r| ensures key(r[i].val) != key(r[j].val) {
      assert r[i] in s && r[j] in s;
      var a :| 0 <= a < |s| && s[a] == r[i];
      var b :| 0 <= b < |s| && s[b] == r[j];
      assert Precedes(r[i], r[j]);
      assert a != b;
    }
  }

  /** Deleting one row leaves every other id in place. */
  lemma RemoveKeepsOtherIds<T>(s: seq<Row<T>>, id: int)
    ensures forall k | k != id :: HasId(Remove(s, id), k) <==> HasId(s, k)
    ensures !HasId(Remove(s, id), id)
  {
    forall k | k != id && HasId(s, k) ensures HasId(Remove(s, id), k) {
      var r :| r in s && r.id == k;
      assert r in Remove(s, id);
    }
  }

  /** The clock only moves forward, so the invariant survives a tick. */
  lemma WellFormedLater<T>(t: Table<T>, clock: nat, later: nat)
    requires WellFormed(t, clock) && clock <= later
    ensures WellFormed(t, later)
  {
  }

  /** Under a unique index a row's own key is free for that row. */
  lemma OwnKeyFree<T, K>(s: seq<Row<T>>, key: T -> K, x: Row<T>)
    requires Chrono(s) && UniqueBy(s, key) && x in s
    ensures KeyFreeFor(s, key, key(x.val), x.id)
  {
    forall r | r in s && r.id != x.id ensures key(r.val) != key(x.val) {
      var i :| 0 <= i < |s| && s[i] == r;
      var j :| 0 <= j < |s| && s[j] == x;
      assert i != j;
    }
  }

  /** Deleting an id no row holds changes nothing. */
  lemma {:induction false} RemoveNothing<T>(s: seq<Row<T>>, id: int)
    requires !HasId(s, id)
    ensures Remove(s, id) == s
  {
    if s != [] {
      assert !HasId(s[1..], id) by {
        forall x | x in s[1..] ensures x.id != id {
          assert x in s;
        }
      }
      RemoveNothing(s[1..], id);
      assert Remove(s, id) == [s[0]] + Remove(s[1..], id);
    }
  }
}
