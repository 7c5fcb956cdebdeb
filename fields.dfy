/** How an input field becomes a column value: omitted or null optional
    fields on create, and the partial-update rule (an omitted field keeps its
    value, an explicit null clears it, a value replaces it). */
module Fields {
  import opened Wrappers
  import opened Schema

  /** `input.x ?? null`: an omitted or null field is stored as NULL, any
      given value is stored as given. */
  function OrNull<T>(f: Nullish<T>): Option<T>
  {
    if f.Some? then f.value else None
  }

  /** The create handlers as written store `input.x || null`: JavaScript's
      `||` also discards every falsy value, so an empty string and the
      number 0 are stored as NULL. `falsy` says which values JavaScript
      treats as false. */
  function JsOrNull<T>(f: Nullish<T>, falsy: T -> bool): (c: Option<T>)
    ensures c.Some? <==> f.Some? && f.value.Some? && !falsy(f.value.value)
    ensures c.Some? ==> c.value == f.value.value
  {
    if f.Some? && f.value.Some? && !falsy(f.value.value) then f.value else None
  }

  predicate ZeroIsFalsy(n: int) { n == 0 }
  predicate EmptyIsFalsy(s: string) { s == "" }

  /** With `?? null` every given value survives the trip into the column. */
  lemma {:induction false} OrNullKeepsValue<T>(v: T)
    ensures OrNull(Some(Some(v))) == Some(v)
    ensures OrNull<T>(Some(None)) == None && OrNull<T>(None) == None
  {
  }

  /** With `|| null` a tuition fee, ranking or duration of 0 does not survive:
      the row stores NULL where the caller sent 0. */
  lemma ZeroIsLost()
    ensures JsOrNull(Some(Some(0)), ZeroIsFalsy) == None
    ensures OrNull(Some(Some(0))) == Some(0)
  {
  }

  /** The two coalescings agree except on falsy values. */
  lemma JsOrNullAgreesOnTruthy<T>(f: Nullish<T>, falsy: T -> bool)
    requires f.Some? && f.value.Some? ==> !falsy(f.value.value)
    ensures JsOrNull(f, falsy) == OrNull(f)
  {
  }

  /** Partial update of one column. */
  function Patch<T>(p: Option<T>, v: T): T
  {
    if p.Some? then p.value else v
  }

  function LocOrNull<T>(l: Loc<Nullish<T>>): Loc<Option<T>>
  {
    Loc(OrNull(l.ar), OrNull(l.en), OrNull(l.tr), OrNull(l.ms))
  }

  /** Partial update of the four language columns of a localised field. */
  function LocPatch<T>(p: Loc<Option<T>>, v: Loc<T>): Loc<T>
  {
    Loc(Patch(p.ar, v.ar), Patch(p.en, v.en), Patch(p.tr, v.tr), Patch(p.ms, v.ms))
  }

  /** A localised field with no language given. */
  function LocOmitted<T>(): Loc<Option<T>>
  {
    Loc(None, None, None, None)
  }

  /** Two partial updates merged into one: a field the later one gives
      wins, otherwise the earlier one's stands. */
  function Then<T>(p: Option<T>, q: Option<T>): Option<T>
  {
    if q.Some? then q else p
  }

  function LocThen<T>(p: Loc<Option<T>>, q: Loc<Option<T>>): Loc<Option<T>>
  {
    Loc(Then(p.ar, q.ar), Then(p.en, q.en), Then(p.tr, q.tr), Then(p.ms, q.ms))
  }

  /** Patching is idempotent, an omitted field changes nothing, and two
      patches in a row act as one patch in which the later one wins. */
  lemma PatchLaws<T>(p: Option<T>, q: Option<T>, v: T)
    ensures Patch(p, Patch(p, v)) == Patch(p, v)
    ensures Patch(None, v) == v
    ensures Patch(q, Patch(p, v)) == Patch(Then(p, q), v)
  {
  }

  /** The same laws for the four language columns, language by language. */
  lemma LocPatchLaws<T>(p: Loc<Option<T>>, q: Loc<Option<T>>, v: Loc<T>)
    ensures LocPatch(p, LocPatch(p, v)) == LocPatch(p, v)
    ensures LocPatch(LocOmitted(), v) == v
    ensures LocPatch(q, LocPatch(p, v)) == LocPatch(LocThen(p, q), v)
  {
  }
}
