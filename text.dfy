/** Case-insensitive substring search, the meaning of `ILIKE '%term%'`. */
module Text {

  /** Folds one ASCII upper-case letter to lower case; other characters are kept. */
  function Lower(c: char): (d: char)
    ensures 'A' <= c <= 'Z' ==> 'a' <= d <= 'z' && d as int - c as int == 32
    ensures !('A' <= c <= 'Z') ==> d == c
  {
    if 'A' <= c <= 'Z' then (c as int + 32) as char else c
  }

  /** The case fold applied to both sides of a comparison. */
  function Fold(s: string): (t: string)
    ensures |t| == |s|
    ensures forall i | 0 <= i < |s| :: t[i] == Lower(s[i])
  {
    seq(|s|, i requires 0 <= i < |s| => Lower(s[i]))
  }

  /** `needle` occurs in `hay` as a contiguous run starting at `i`. */
  predicate OccursAt(hay: string, needle: string, i: int)
  {
    0 <= i && i + |needle| <= |hay| && hay[i..i + |needle|] == needle
  }

  predicate Contains(hay: string, needle: string)
  {
    exists i | 0 <= i <= |hay| - |needle| :: OccursAt(hay, needle, i)
  }

  /** `hay ILIKE '%' || needle || '%'`. */
  predicate ContainsFolded(hay: string, needle: string)
  {
    Contains(Fold(hay), Fold(needle))
  }

  /** A search term matches when it occurs in at least one of the searched
      columns; an absent term matches everything. */
  predicate SearchHit(term: Option<string>, columns: seq<string>)
  {
    term.None? || exists c | c in columns :: ContainsFolded(c, term.value)
  }

  import opened Wrappers

  lemma FoldIdempotent(s: string)
    ensures Fold(Fold(s)) == Fold(s)
  {
  }

  /** The search ignores the case of the term: searching for a term or its
      folded form finds the same rows. */
  lemma SearchIgnoresTermCase(term: string, columns: seq<string>)
    ensures SearchHit(Some(term), columns) <==> SearchHit(Some(Fold(term)), columns)
  {
    FoldIdempotent(term);
  }

  /** An empty term occurs in every column, so an empty search keeps every row
      that has at least one searched column. */
  lemma EmptyTermMatches(columns: seq<string>)
    requires |columns| > 0
    ensures SearchHit(Some(""), columns)
  {
    assert OccursAt(Fold(columns[0]), Fold(""), 0);
    assert ContainsFolded(columns[0], "");
  }

  /** An occurrence of the needle itself is found whatever the case of both. */
  lemma OccurrenceIsFound(hay: string, needle: string, i: int)
    requires OccursAt(hay, needle, i)
    ensures ContainsFolded(hay, needle)
  {
    var fh, fn := Fold(hay), Fold(needle);
    assert fh[i..i + |needle|] == fn by {
      forall k | 0 <= k < |needle|
        ensures fh[i..i + |needle|][k] == fn[k]
      {
        assert hay[i + k] == needle[k];
      }
    }
    assert OccursAt(fh, fn, i);
  }
}
