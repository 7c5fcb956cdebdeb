/** Application settings: key/value rows with a unique key, looked up by key
    or category, written by an upsert that changes only the value, singly or
    as a batch in one transaction. */
module Settings {
  import opened Wrappers
  import opened Schema
  import opened Tables
  import opened DbSchema
  import opened Store

  // ------------------------------------------------------------- reads

  function WithKey(key: string): Row<Setting> -> bool
  {
    (r: Row<Setting>) => r.val.key == key
  }

  function InCategory(category: string): Row<Setting> -> bool
  {
    (r: Row<Setting>) => r.val.category == Some(category)
  }

  function GetAllSettings(rows: seq<Row<Setting>>): (r: seq<Row<Setting>>)
    ensures forall x :: x in r <==> x in rows
  {
    rows
  }

  /** `SELECT ... WHERE key = $1`: null when no setting has the key. */
  function GetSettingByKey(rows: seq<Row<Setting>>, key: string): (r: Option<Row<Setting>>)
    ensures r.None? <==> !KeyTaken(rows, SettingKeyOf, key)
    ensures r.Some? ==> r.value in rows && r.value.val.key == key
  {
    First(rows, WithKey(key))
  }

  /** The settings of one category; a NULL category matches no name. */
  function GetSettingsByCategory(rows: seq<Row<Setting>>, category: string): (r: seq<Row<Setting>>)
    ensures forall x :: x in r <==> x in rows && x.val.category == Some(category)
  {
    Where(rows, InCategory(category))
  }

  function GetEmailSettings(rows: seq<Row<Setting>>): (r: seq<Row<Setting>>)
    ensures forall x :: x in r <==> x in rows && x.val.category == Some("email")
  {
    GetSettingsByCategory(rows, "email")
  }

  function GetSeoSettings(rows: seq<Row<Setting>>): (r: seq<Row<Setting>>)
    ensures forall x :: x in r <==> x in rows && x.val.category == Some("seo")
  {
    GetSettingsByCategory(rows, "seo")
  }

  const SupportedLanguagesKey := "supported_languages"
  const DefaultLanguages: seq<string> := ["ar", "en", "tr", "ms"]

  /** The languages listed by the `supported_languages` setting as decoded by
      `parse` (a JSON array of strings), or the default four when the
      setting is absent or does not decode. */
  function GetSupportedLanguages(rows: seq<Row<Setting>>, parse: string -> Option<seq<string>>): (r: seq<string>)
    ensures !KeyTaken(rows, SettingKeyOf, SupportedLanguagesKey) ==> r == DefaultLanguages
  {
    match GetSettingByKey(rows, SupportedLanguagesKey)
    case None => DefaultLanguages
    case Some(x) => parse(x.val.value).GetOr(DefaultLanguages)
  }

  /** Under the unique key, the stored list is the one that decodes, and an
      undecodable one falls back to the default. */
  lemma {:induction false} SupportedLanguagesFromSetting(rows: seq<Row<Setting>>, parse: string -> Option<seq<string>>, x: Row<Setting>)
    requires UniqueBy(rows, SettingKeyOf) && x in rows && x.val.key == SupportedLanguagesKey
    ensures GetSupportedLanguages(rows, parse) == parse(x.val.value).GetOr(DefaultLanguages)
  {
    KeyFindsTheSetting(rows, x);
  }

  lemma KeysDistinct(s: seq<Row<Setting>>, i: int, j: int)
    requires UniqueBy(s, SettingKeyOf) && 0 <= i < |s| && 0 <= j < |s| && i != j
    ensures s[i].val.key != s[j].val.key
  {
    if i < j {
      assert SettingKeyOf(s[i].val) != SettingKeyOf(s[j].val);
    } else {
      assert SettingKeyOf(s[j].val) != SettingKeyOf(s[i].val);
    }
  }

  /** Under the unique key a setting is the only row with its key, and lookup
      by that key finds it. */
  lemma KeyFindsTheSetting(s: seq<Row<Setting>>, x: Row<Setting>)
    requires UniqueBy(s, SettingKeyOf) && x in s
    ensures GetSettingByKey(s, x.val.key) == Some(x)
    ensures forall y | y in s && y.val.key == x.val.key :: y == x
  {
    forall y | y in s && y.val.key == x.val.key ensures y == x {
      var i :| 0 <= i < |s| && s[i] == y;
      var j :| 0 <= j < |s| && s[j] == x;
      if i != j { KeysDistinct(s, i, j); }
    }
  }

  // ------------------------------------------------------------- writes

  /** `updateSetting`: an existing key gets the new value, keeping its
      description and category; an unknown key is inserted with no
      description and no category. Returns the stored row. */
  function Upsert(t: Table<Setting>, input: UpdateSettingsInput, now: nat): (Row<Setting>, Table<Setting>)
  {
    match GetSettingByKey(t.rows, input.key)
    case None =>
      var v := Setting(input.key, input.value, None, None);
      (Row(t.nextId, now, now, v), Insert(t, v, now))
    case Some(before) =>
      var v := before.val.(value := input.value);
      (before.(val := v, updatedAt := now), Table(Update(t.rows, before.id, v, now), t.nextId))
  }

  /** An upsert keeps the table well formed and the key unique. */
  lemma UpsertKeepsInvariant(t: Table<Setting>, input: UpdateSettingsInput, now: nat)
    requires WellFormed(t, now) && UniqueBy(t.rows, SettingKeyOf)
    ensures WellFormed(Upsert(t, input, now).1, now)
    ensures UniqueBy(Upsert(t, input, now).1.rows, SettingKeyOf)
  {
    match GetSettingByKey(t.rows, input.key)
    case None =>
      var v := Setting(input.key, input.value, None, None);
      InsertWellFormed(t, v, now);
      InsertKeepsUnique(t, SettingKeyOf, v, now);
    case Some(before) =>
      var v := before.val.(value := input.value);
      UpdateWellFormed(t, before.id, v, now);
      OwnKeyFree(t.rows, SettingKeyOf, before);
      UpdateKeepsUnique(t.rows, SettingKeyOf, before.id, v, now);
  }

  /** After an upsert exactly one row holds the key, with the new value; an
      existing row keeps its id, creation time, description and category
      and no row is added; a new row has neither description nor category;
      the lookup of every other key is unchanged. */
  lemma {:induction false} UpsertFacts(t: Table<Setting>, clock: nat, input: UpdateSettingsInput, now: nat)
    requires WellFormed(t, clock) && clock <= now && UniqueBy(t.rows, SettingKeyOf)
    ensures var (row, t') := Upsert(t, input, now);
      && GetSettingByKey(t'.rows, input.key) == Some(row)
      && (forall y | y in t'.rows && y.val.key == input.key :: y == row)
      && row.val.key == input.key && row.val.value == input.value && row.updatedAt == now
      && (forall k | k != input.key :: GetSettingByKey(t'.rows, k) == GetSettingByKey(t.rows, k))
    ensures var (row, t') := Upsert(t, input, now);
      match GetSettingByKey(t.rows, input.key)
      case None =>
        && row.val.description.None? && row.val.category.None?
        && |t'.rows| == |t.rows| + 1 && !HasId(t.rows, row.id)
      case Some(before) =>
        && row.id == before.id && row.createdAt == before.createdAt
        && row.val.description == before.val.description && row.val.category == before.val.category
        && |t'.rows| == |t.rows|
  {
    var (row, t') := Upsert(t, input, now);
    WellFormedLater(t, clock, now);
    UpsertKeepsInvariant(t, input, now);
    UpsertedRowIsThere(t, input, now);
    KeyFindsTheSetting(t'.rows, row);
    forall k | k != input.key ensures GetSettingByKey(t'.rows, k) == GetSettingByKey(t.rows, k) {
      OtherKeysKept(t, input, now, k);
    }
    if GetSettingByKey(t.rows, input.key).None? {
      FindAfterInsert(t, Setting(input.key, input.value, None, None), now);
    }
  }

  /** The returned row is stored, and every stored row is an old one or
      carries the upserted key. */
  lemma UpsertedRowIsThere(t: Table<Setting>, input: UpdateSettingsInput, now: nat)
    requires WellFormed(t, now)
    ensures Upsert(t, input, now).0 in Upsert(t, input, now).1.rows
    ensures forall y | y in Upsert(t, input, now).1.rows :: y in t.rows || y.val.key == input.key
  {
    match GetSettingByKey(t.rows, input.key)
    case None =>
    case Some(before) =>
      var v := before.val.(value := input.value);
      FindAfterUpdate(t.rows, before, v, now);
      UpdateMembers(t.rows, before.id, v, now);
  }

  lemma OtherKeysKept(t: Table<Setting>, input: UpdateSettingsInput, now: nat, k: string)
    requires WellFormed(t, now) && UniqueBy(t.rows, SettingKeyOf) && k != input.key
    requires WellFormed(Upsert(t, input, now).1, now)
    requires UniqueBy(Upsert(t, input, now).1.rows, SettingKeyOf)
    requires forall y | y in Upsert(t, input, now).1.rows :: y in t.rows || y.val.key == input.key
    ensures GetSettingByKey(Upsert(t, input, now).1.rows, k) == GetSettingByKey(t.rows, k)
  {
    var t' := Upsert(t, input, now).1;
    match GetSettingByKey(t.rows, k)
    case None =>
      assert forall y | y in t'.rows :: !WithKey(k)(y);
    case Some(x) =>
      OtherRowKept(t, input, now, x);
      KeyFindsTheSetting(t'.rows, x);
  }

  /** A row holding another key survives an upsert unchanged. */
  lemma OtherRowKept(t: Table<Setting>, input: UpdateSettingsInput, now: nat, x: Row<Setting>)
    requires Chrono(t.rows) && x in t.rows && x.val.key != input.key
    ensures x in Upsert(t, input, now).1.rows
  {
    match GetSettingByKey(t.rows, input.key)
    case None =>
    case Some(before) =>
      FindsTheRow(t.rows, x);
      FindsTheRow(t.rows, before);
      FindAfterUpdate(t.rows, before, before.val.(value := input.value), now);
  }

  method UpdateSetting(db: Db, input: UpdateSettingsInput) returns (row: Row<Setting>)
    requires db.Valid()
    modifies db`settings, db`clock
    ensures db.Valid()
    ensures (row, db.settings) == Upsert(old(db.settings), input, old(db.clock) + 1)
    ensures db.clock == old(db.clock) + 1
  {
    var now := db.clock + 1;
    ghost var s := db.Contents();
    var written: Table<Setting>;
    row, written := Upsert(db.settings, input, now).0, Upsert(db.settings, input, now).1;
    WellFormedLater(s.settings, s.clock, now);
    UpsertKeepsInvariant(s.settings, input, now);
    SettingsReplaced(s, written, now);
    db.settings, db.clock := written, now;
    assert db.Contents() == s.(settings := written, clock := now);
  }

  // -------------------------------------------------------------- batches

  /** The batch applied in order, every row stamped with the transaction's
      instant `now`. */
  function UpsertAll(t: Table<Setting>, inputs: seq<UpdateSettingsInput>, now: nat): Table<Setting>
    decreases |inputs|
  {
    if inputs == [] then t
    else Upsert(UpsertAll(t, inputs[..|inputs| - 1], now), inputs[|inputs| - 1], now).1
  }

  /** The value the last entry for `key` carries; later entries win. */
  function LastValueFor(inputs: seq<UpdateSettingsInput>, key: string): (r: Option<string>)
    ensures r.None? <==> forall e | e in inputs :: e.key != key
    ensures r.Some? ==> UpdateSettingsInput(key, r.value) in inputs
  {
    if inputs == [] then None
    else if inputs[|inputs| - 1].key == key then Some(inputs[|inputs| - 1].value)
    else
      var r := LastValueFor(inputs[..|inputs| - 1], key);
      assert inputs == inputs[..|inputs| - 1] + [inputs[|inputs| - 1]];
      r
  }

  lemma {:induction false} UpsertAllKeepsInvariant(t: Table<Setting>, inputs: seq<UpdateSettingsInput>, now: nat)
    requires WellFormed(t, now) && UniqueBy(t.rows, SettingKeyOf)
    ensures WellFormed(UpsertAll(t, inputs, now), now)
    ensures UniqueBy(UpsertAll(t, inputs, now).rows, SettingKeyOf)
    decreases |inputs|
  {
    if inputs != [] {
      UpsertAllKeepsInvariant(t, inputs[..|inputs| - 1], now);
      UpsertKeepsInvariant(UpsertAll(t, inputs[..|inputs| - 1], now), inputs[|inputs| - 1], now);
    }
  }

  /** After a batch every key it names holds the value of its last entry,
      and every key it does not name looks up as before. */
  lemma {:induction false} UpsertAllFacts(t: Table<Setting>, clock: nat, inputs: seq<UpdateSettingsInput>, now: nat)
    requires WellFormed(t, clock) && clock <= now && UniqueBy(t.rows, SettingKeyOf)
    ensures forall k | LastValueFor(inputs, k).Some? ::
      && GetSettingByKey(UpsertAll(t, inputs, now).rows, k).Some?
      && GetSettingByKey(UpsertAll(t, inputs, now).rows, k).value.val.value == LastValueFor(inputs, k).value
    ensures forall k | LastValueFor(inputs, k).None? ::
      GetSettingByKey(UpsertAll(t, inputs, now).rows, k) == GetSettingByKey(t.rows, k)
    decreases |inputs|
  {
    if inputs != [] {
      var p := inputs[..|inputs| - 1];
      var last := inputs[|inputs| - 1];
      var tp := UpsertAll(t, p, now);
      UpsertAllFacts(t, clock, p, now);
      WellFormedLater(t, clock, now);
      UpsertAllKeepsInvariant(t, p, now);
      UpsertFacts(tp, now, last, now);
      var t' := UpsertAll(t, inputs, now);
      assert t' == Upsert(tp, last, now).1;
      assert forall k :: LastValueFor(inputs, k) == (if k == last.key then Some(last.value) else LastValueFor(p, k));
    }
  }

  /** `updateMultipleSettings`: every entry upserted in one transaction;
      the answer is true, and an empty batch writes nothing. */
  method UpdateMultipleSettings(db: Db, inputs: seq<UpdateSettingsInput>) returns (ok: bool)
    requires db.Valid()
    modifies db`settings, db`clock
    ensures db.Valid()
    ensures ok
    ensures db.settings == UpsertAll(old(db.settings), inputs, old(db.clock) + 1)
    ensures db.clock == if inputs == [] then old(db.clock) else old(db.clock) + 1
  {
    if inputs == [] {
      return true;
    }
    var now := db.clock + 1;
    var t := db.settings;
    var i := 0;
    while i < |inputs|
      invariant 0 <= i <= |inputs|
      invariant t == UpsertAll(db.settings, inputs[..i], now)
    {
      assert inputs[..i + 1][..i] == inputs[..i];
      t := Upsert(t, inputs[i], now).1;
      i := i + 1;
    }
    assert inputs[..|inputs|] == inputs;
    ghost var s := db.Contents();
    WellFormedLater(s.settings, s.clock, now);
    UpsertAllKeepsInvariant(s.settings, inputs, now);
    SettingsReplaced(s, t, now);
    db.settings, db.clock := t, now;
    assert db.Contents() == s.(settings := t, clock := now);
    ok := true;
  }
}
