/** Article repository: paginated listing with six filters, lookups by id
    and by slug, the featured, related, per-country and per-major lists for
    public pages, and create, update and delete with the optional country
    and major references checked before any write. */
module Articles {
  import opened Wrappers
  import opened Errors
  import opened Schema
  import opened Tables
  import opened DbSchema
  import opened Fields
  import opened Query
  import opened Text
  import opened Store

  /** The non-null strings of a list of nullable columns, in order. */
  function NonNull(xs: seq<Option<string>>): (r: seq<string>)
    ensures forall c :: c in r <==> Some(c) in xs
  {
    if xs == [] then []
    else (if xs[0].Some? then [xs[0].value] else []) + NonNull(xs[1..])
  }

  /** The columns a search looks in: the four titles, the slug and the
      content in every language that has some. */
  function SearchColumns(a: Article): seq<string>
  {
    Variants(a.title) + [a.slug] + NonNull(Variants(a.content))
  }

  predicate ArticleMatches(q: ArticlesQuery, r: Row<Article>)
  {
    && (q.countryId.None? || r.val.countryId == Some(q.countryId.value))
    && (q.majorId.None? || r.val.majorId == Some(q.majorId.value))
    && (q.category.None? || r.val.category == Some(q.category.value))
    && (q.status.None? || r.val.status == q.status.value)
    && (q.isFeatured.None? || r.val.isFeatured == q.isFeatured.value)
    && SearchHit(q.search, SearchColumns(r.val))
  }

  function ArticleFilter(q: ArticlesQuery): Row<Article> -> bool
  {
    (r: Row<Article>) => ArticleMatches(q, r)
  }

  /** One page of the articles matching every given filter, newest first,
      with the number of matches over all pages: the rows whose newest-first
      positions among the matches are those of the requested page. */
  function GetArticles(rows: seq<Row<Article>>, q: ArticlesQuery): (r: ListResult<Article>)
    requires Chrono(rows)
    ensures r.page == q.pagination.page && r.limit == q.pagination.limit
    ensures r.total == CountWhere(rows, ArticleFilter(q))
    ensures |r.data| <= q.pagination.limit
    ensures forall x | x in r.data :: x in rows && ArticleMatches(q, x)
    ensures NewestFirstOrder(r.data)
    ensures HoldsPage(rows, ArticleFilter(q), q.pagination, r.data)
  {
    ListPage(rows, ArticleFilter(q), q.pagination)
  }

  /** Searching matches a word of an article's content in any language as
      well as one of its titles, whatever its case. */
  lemma {:induction false} SearchReachesContent(q: ArticlesQuery, x: Row<Article>, word: string, c: string)
    requires q.search == Some(word)
    requires q.countryId.None? && q.majorId.None? && q.category.None? && q.status.None? && q.isFeatured.None?
    requires Some(c) in Variants(x.val.content) && ContainsFolded(c, word)
    ensures ArticleMatches(q, x)
  {
    assert c in SearchColumns(x.val);
  }

  function GetArticleById(rows: seq<Row<Article>>, id: int): (r: Option<Row<Article>>)
    ensures r.None? <==> !HasId(rows, id)
    ensures r.Some? ==> r.value in rows && r.value.id == id
  {
    Find(rows, id)
  }

  function ActiveWithSlug(slug: string): Row<Article> -> bool
  {
    (r: Row<Article>) => r.val.slug == slug && r.val.status == Active
  }

  /** Lookup by slug for public pages: an INACTIVE article is not found. */
  function GetArticleBySlug(rows: seq<Row<Article>>, slug: string): (r: Option<Row<Article>>)
    ensures r.None? <==> forall x | x in rows :: !(x.val.slug == slug && x.val.status == Active)
    ensures r.Some? ==> r.value in rows && r.value.val.slug == slug && r.value.val.status == Active
  {
    First(rows, ActiveWithSlug(slug))
  }

  /** Under the unique slug index, an ACTIVE article is what its slug finds
      and an INACTIVE one leaves its slug finding nothing. */
  lemma {:induction false} SlugLookupSeesActiveOnly(rows: seq<Row<Article>>, x: Row<Article>)
    requires UniqueBy(rows, ArticleSlugOf) && x in rows
    ensures GetArticleBySlug(rows, x.val.slug) == (if x.val.status == Active then Some(x) else None)
  {
    forall y | y in rows && y.val.slug == x.val.slug ensures y == x {
      var i :| 0 <= i < |rows| && rows[i] == y;
      var j :| 0 <= j < |rows| && rows[j] == x;
      assert ArticleSlugOf(rows[i].val) == ArticleSlugOf(rows[j].val);
    }
    if x.val.status == Active {
      assert ActiveWithSlug(x.val.slug)(x);
    }
  }

  /** The limit `getFeaturedArticles` and `getRelatedArticles` use when the
      caller gives none. */
  const DefaultListLimit: nat := 5

  function FeaturedAndActive(): Row<Article> -> bool
  {
    (r: Row<Article>) => r.val.isFeatured && r.val.status == Active
  }

  /** The newest `limit` articles that are both featured and ACTIVE. */
  function GetFeaturedArticles(rows: seq<Row<Article>>, limit: nat): (r: seq<Row<Article>>)
    requires Chrono(rows)
    ensures |r| == Min(limit, CountWhere(rows, FeaturedAndActive()))
    ensures forall x | x in r :: x in rows && x.val.isFeatured && x.val.status == Active
    ensures NewestFirstOrder(r)
    ensures forall x, y | x in r && y in rows && y.val.isFeatured && y.val.status == Active && y !in r :: Newer(x, y)
  {
    Latest(rows, FeaturedAndActive(), limit)
  }

  /** `b` is another article sharing `a`'s country or `a`'s major. */
  predicate RelatedTo(a: Row<Article>, b: Row<Article>)
  {
    && b.id != a.id
    && ((a.val.countryId.Some? && b.val.countryId == a.val.countryId)
        || (a.val.majorId.Some? && b.val.majorId == a.val.majorId))
  }

  function Related(a: Row<Article>): Row<Article> -> bool
  {
    (b: Row<Article>) => RelatedTo(a, b)
  }

  /** The newest `limit` other articles sharing a country or a major with
      the given one: as many as there are up to `limit`, each newer than
      every related article left out; none for an unknown id. */
  function GetRelatedArticles(rows: seq<Row<Article>>, articleId: int, limit: nat): (r: seq<Row<Article>>)
    requires Chrono(rows)
    ensures !HasId(rows, articleId) ==> r == []
    ensures |r| <= limit
    ensures forall x | x in r :: x in rows && x.id != articleId
    ensures forall x | x in r :: exists a | a in rows && a.id == articleId :: RelatedTo(a, x)
    ensures NewestFirstOrder(r)
    ensures Find(rows, articleId).Some? ==>
      var a := Find(rows, articleId).value;
      && |r| == Min(limit, CountWhere(rows, Related(a)))
      && forall x, y | x in r && y in rows && RelatedTo(a, y) && y !in r :: Newer(x, y)
  {
    match Find(rows, articleId)
    case None => []
    case Some(a) => Latest(rows, Related(a), limit)
  }

  /** An article without a country or a major has no related articles. */
  lemma {:induction false} UnlinkedHasNoRelated(rows: seq<Row<Article>>, a: Row<Article>, limit: nat)
    requires Chrono(rows) && a in rows && a.val.countryId.None? && a.val.majorId.None?
    ensures GetRelatedArticles(rows, a.id, limit) == []
  {
    FindsTheRow(rows, a);
    assert forall x | x in rows :: !Related(a)(x);
  }

  function ActiveInCountry(countryId: int): Row<Article> -> bool
  {
    (r: Row<Article>) => r.val.countryId == Some(countryId) && r.val.status == Active
  }

  function ActiveForMajor(majorId: int): Row<Article> -> bool
  {
    (r: Row<Article>) => r.val.majorId == Some(majorId) && r.val.status == Active
  }

  /** The ACTIVE articles about a country, newest first: the `limit` newest,
      each newer than every one left out; all of them without a limit. */
  function GetArticlesByCountry(rows: seq<Row<Article>>, countryId: int, limit: Option<nat>): (r: seq<Row<Article>>)
    requires Chrono(rows)
    ensures forall x | x in r :: x in rows && x.val.countryId == Some(countryId) && x.val.status == Active
    ensures limit.Some? ==> |r| == Min(limit.value, CountWhere(rows, ActiveInCountry(countryId)))
    ensures limit.None? ==> forall x | x in rows && x.val.countryId == Some(countryId) && x.val.status == Active :: x in r
    ensures NewestFirstOrder(r)
    ensures forall x, y | x in r && y in rows && y.val.countryId == Some(countryId) && y.val.status == Active && y !in r :: Newer(x, y)
  {
    Latest(rows, ActiveInCountry(countryId), limit.GetOr(|rows|))
  }

  /** The ACTIVE articles about a major, newest first: the `limit` newest,
      each newer than every one left out; all of them without a limit. */
  function GetArticlesByMajor(rows: seq<Row<Article>>, majorId: int, limit: Option<nat>): (r: seq<Row<Article>>)
    requires Chrono(rows)
    ensures forall x | x in r :: x in rows && x.val.majorId == Some(majorId) && x.val.status == Active
    ensures limit.Some? ==> |r| == Min(limit.value, CountWhere(rows, ActiveForMajor(majorId)))
    ensures limit.None? ==> forall x | x in rows && x.val.majorId == Some(majorId) && x.val.status == Active :: x in r
    ensures NewestFirstOrder(r)
    ensures forall x, y | x in r && y in rows && y.val.majorId == Some(majorId) && y.val.status == Active && y !in r :: Newer(x, y)
  {
    Latest(rows, ActiveForMajor(majorId), limit.GetOr(|rows|))
  }

  /** The row a create stores: titles and slug as given, status ACTIVE and
      not featured unless given, every omitted or null optional column NULL. */
  function NewArticle(input: CreateArticleInput): (a: Article)
    ensures a.title == input.title && a.slug == input.slug
    ensures a.status == input.status.GetOr(Active) && a.isFeatured == input.isFeatured.GetOr(false)
    ensures a.countryId == OrNull(input.countryId) && a.majorId == OrNull(input.majorId)
    ensures a.category == OrNull(input.category) && a.featuredImageUrl == OrNull(input.featuredImageUrl)
    ensures a.content == LocOrNull(input.content) && a.excerpt == LocOrNull(input.excerpt)
    ensures a.metaTitle == LocOrNull(input.metaTitle) && a.metaDescription == LocOrNull(input.metaDescription)
  {
    Article(input.title, input.slug, LocOrNull(input.content), LocOrNull(input.excerpt),
            OrNull(input.featuredImageUrl), OrNull(input.category), OrNull(input.countryId), OrNull(input.majorId),
            input.status.GetOr(Active), input.isFeatured.GetOr(false),
            LocOrNull(input.metaTitle), LocOrNull(input.metaDescription))
  }

  function ApplyArticlePatch(a: Article, p: UpdateArticleInput): Article
  {
    Article(LocPatch(p.title, a.title), Patch(p.slug, a.slug), LocPatch(p.content, a.content),
            LocPatch(p.excerpt, a.excerpt), Patch(p.featuredImageUrl, a.featuredImageUrl),
            Patch(p.category, a.category), Patch(p.countryId, a.countryId), Patch(p.majorId, a.majorId),
            Patch(p.status, a.status), Patch(p.isFeatured, a.isFeatured),
            LocPatch(p.metaTitle, a.metaTitle), LocPatch(p.metaDescription, a.metaDescription))
  }

  function NoArticleChanges(id: int): UpdateArticleInput
  {
    UpdateArticleInput(id, LocOmitted(), None, LocOmitted(), LocOmitted(), None, None, None, None, None, None,
                       LocOmitted(), LocOmitted())
  }

  /** An update naming no field leaves every column as it was, and
      repeating an update changes nothing further. */
  lemma ArticlePatchLaws(a: Article, p: UpdateArticleInput)
    ensures ApplyArticlePatch(a, NoArticleChanges(p.id)) == a
    ensures ApplyArticlePatch(ApplyArticlePatch(a, p), p) == ApplyArticlePatch(a, p)
  {
    LocPatchLaws(p.title, LocOmitted(), a.title);
    LocPatchLaws(p.content, LocOmitted(), a.content);
    LocPatchLaws(p.excerpt, LocOmitted(), a.excerpt);
    LocPatchLaws(p.metaTitle, LocOmitted(), a.metaTitle);
    LocPatchLaws(p.metaDescription, LocOmitted(), a.metaDescription);
  }

  /** The first reference a write names that does not exist: the country
      is checked before the major, and a null or omitted one is not checked. */
  function MissingRef(countryId: Option<int>, majorId: Option<int>, cs: seq<Row<Country>>, ms: seq<Row<Major>>): (e: Option<Error>)
    ensures e.None? <==> (countryId.Some? ==> HasId(cs, countryId.value)) && (majorId.Some? ==> HasId(ms, majorId.value))
  {
    if countryId.Some? && !HasId(cs, countryId.value) then Some(MissingReference(CountryEntity, countryId.value))
    else if majorId.Some? && !HasId(ms, majorId.value) then Some(MissingReference(MajorEntity, majorId.value))
    else None
  }

  // ------------------------------------------------------------- writes

  /** What `createArticle` does when the write is stamped `now`: a country
      or major given but absent is refused, then a slug already in use;
      otherwise the new row is appended. */
  function CreateArticleSpec(t: Table<Article>, cs: seq<Row<Country>>, ms: seq<Row<Major>>,
                             input: CreateArticleInput, now: nat): (Result<Row<Article>, Error>, Table<Article>)
  {
    var v := NewArticle(input);
    match MissingRef(v.countryId, v.majorId, cs, ms)
    case Some(e) => (Failure(e), t)
    case None =>
      if KeyTaken(t.rows, ArticleSlugOf, input.slug) then (Failure(UniqueViolation(ArticleSlug)), t)
      else (Success(Row(t.nextId, now, now, v)), Insert(t, v, now))
  }

  /** The references an update names with a value; omitted and null ones
      are not looked up. */
  function Named(f: Nullish<int>): Option<int>
  {
    if f.Some? then f.value else None
  }

  /** What `updateArticle` does: an unknown id is "not found"; a country or
      major named but absent is refused, then a new slug held by another
      article; otherwise the patched row replaces the old one, stamped `now`. */
  function UpdateArticleSpec(t: Table<Article>, cs: seq<Row<Country>>, ms: seq<Row<Major>>,
                             input: UpdateArticleInput, now: nat): (Result<Option<Row<Article>>, Error>, Table<Article>)
  {
    match Find(t.rows, input.id)
    case None => (Success(None), t)
    case Some(before) =>
      var after := ApplyArticlePatch(before.val, input);
      match MissingRef(Named(input.countryId), Named(input.majorId), cs, ms)
      case Some(e) => (Failure(e), t)
      case None =>
        if !KeyFreeFor(t.rows, ArticleSlugOf, after.slug, input.id) then (Failure(UniqueViolation(ArticleSlug)), t)
        else (Success(Some(before.(val := after, updatedAt := now))), Table(Update(t.rows, input.id, after, now), t.nextId))
  }

  /** What `deleteArticle` does: nothing references an article, so the row
      (if any) is removed and the result says whether there was one. */
  function DeleteArticleSpec(t: Table<Article>, id: int): (bool, Table<Article>)
  {
    (HasId(t.rows, id), Table(Remove(t.rows, id), t.nextId))
  }

  method CreateArticle(db: Db, input: CreateArticleInput) returns (res: Result<Row<Article>, Error>)
    requires db.Valid()
    modifies db`articles, db`clock
    ensures db.Valid()
    ensures (res, db.articles) == CreateArticleSpec(old(db.articles), db.countries.rows, db.majors.rows, input, old(db.clock) + 1)
    ensures db.clock == if res.Success? then old(db.clock) + 1 else old(db.clock)
  {
    var v := NewArticle(input);
    var missing := MissingRef(v.countryId, v.majorId, db.countries.rows, db.majors.rows);
    if missing.Some? {
      return Failure(missing.value);
    }
    if KeyTaken(db.articles.rows, ArticleSlugOf, input.slug) {
      return Failure(UniqueViolation(ArticleSlug));
    }
    var now := db.clock + 1;
    ghost var s := db.Contents();
    var inserted := Insert(db.articles, v, now);
    InsertKeepsConsistent(s, v, inserted, now);
    res := Success(Row(db.articles.nextId, now, now, v));
    db.articles, db.clock := inserted, now;
    assert db.Contents() == s.(articles := inserted, clock := now);
  }

  method UpdateArticle(db: Db, input: UpdateArticleInput) returns (res: Result<Option<Row<Article>>, Error>)
    requires db.Valid()
    modifies db`articles, db`clock
    ensures db.Valid()
    ensures (res, db.articles) == UpdateArticleSpec(old(db.articles), db.countries.rows, db.majors.rows, input, old(db.clock) + 1)
    ensures db.clock == if res.Success? && res.value.Some? then old(db.clock) + 1 else old(db.clock)
  {
    var found := Find(db.articles.rows, input.id);
    if found.None? {
      return Success(None);
    }
    var before := found.value;
    var after := ApplyArticlePatch(before.val, input);
    var missing := MissingRef(Named(input.countryId), Named(input.majorId), db.countries.rows, db.majors.rows);
    if missing.Some? {
      return Failure(missing.value);
    }
    if !KeyFreeFor(db.articles.rows, ArticleSlugOf, after.slug, input.id) {
      return Failure(UniqueViolation(ArticleSlug));
    }
    var now := db.clock + 1;
    ghost var s := db.Contents();
    var updated := Table(Update(db.articles.rows, input.id, after, now), db.articles.nextId);
    UpdateKeepsConsistent(s, before, input, after, updated, now);
    db.articles, db.clock := updated, now;
    assert db.Contents() == s.(articles := updated, clock := now);
    res := Success(Some(before.(val := after, updatedAt := now)));
  }

  method DeleteArticle(db: Db, id: int) returns (existed: bool)
    requires db.Valid()
    modifies db`articles
    ensures db.Valid()
    ensures (existed, db.articles) == DeleteArticleSpec(old(db.articles), id)
  {
    existed := HasId(db.articles.rows, id);
    ghost var s := db.Contents();
    var remaining := Table(Remove(db.articles.rows, id), db.articles.nextId);
    RemoveKeepsConsistent(s, id, remaining);
    db.articles := remaining;
    assert db.Contents() == s.(articles := remaining, clock := s.clock);
  }

  // ------------------------------------------------- what the writes promise

  /** A create succeeds exactly when every named reference exists and the
      slug is free; it then appends one row carrying the create mapping of
      the input, found by its fresh id, every earlier row still in place. */
  lemma {:induction false} CreateArticleFacts(t: Table<Article>, clock: nat, cs: seq<Row<Country>>, ms: seq<Row<Major>>,
                                              input: CreateArticleInput)
    requires WellFormed(t, clock)
    ensures var (r, t') := CreateArticleSpec(t, cs, ms, input, clock + 1);
      var c := OrNull(input.countryId);
      var m := OrNull(input.majorId);
      && (r.Success? <==>
            (c.Some? ==> HasId(cs, c.value)) && (m.Some? ==> HasId(ms, m.value))
            && !KeyTaken(t.rows, ArticleSlugOf, input.slug))
      && (c.Some? && !HasId(cs, c.value) ==> r == Failure(MissingReference(CountryEntity, c.value)))
      && (r.Failure? ==> t' == t)
      && (r.Success? ==>
            && r.value.val == NewArticle(input)
            && !HasId(t.rows, r.value.id)
            && GetArticleById(t'.rows, r.value.id) == Some(r.value)
            && forall x | x in t.rows :: GetArticleById(t'.rows, x.id) == Some(x))
  {
    var (r, t') := CreateArticleSpec(t, cs, ms, input, clock + 1);
    if r.Success? {
      WellFormedLater(t, clock, clock + 1);
      FindAfterInsert(t, NewArticle(input), clock + 1);
    }
  }

  /** An update of a known article changes that row only, and never to a
      reference that does not exist. */
  lemma {:induction false} UpdateArticleFacts(t: Table<Article>, clock: nat, cs: seq<Row<Country>>, ms: seq<Row<Major>>,
                                              input: UpdateArticleInput)
    requires WellFormed(t, clock) && ArticleRefsOk(t.rows, cs, ms)
    ensures var (r, t') := UpdateArticleSpec(t, cs, ms, input, clock + 1);
      && (!HasId(t.rows, input.id) ==> r == Success(None) && t' == t)
      && (r.Failure? ==> t' == t)
      && ((HasId(t.rows, input.id) && input.countryId.Some? && input.countryId.value.Some?
             && !HasId(cs, input.countryId.value.value))
            ==> r == Failure(MissingReference(CountryEntity, input.countryId.value.value)))
      && (r.Success? && r.value.Some? ==>
            var before := GetArticleById(t.rows, input.id).value;
            && r.value.value.val == ApplyArticlePatch(before.val, input)
            && r.value.value.createdAt == before.createdAt
            && r.value.value.updatedAt > before.updatedAt
            && GetArticleById(t'.rows, input.id) == r.value
            && ArticleRefsOk(t'.rows, cs, ms)
            && forall x | x in t.rows && x.id != input.id :: GetArticleById(t'.rows, x.id) == Some(x))
  {
    var (r, t') := UpdateArticleSpec(t, cs, ms, input, clock + 1);
    if r.Success? && r.value.Some? {
      var before := Find(t.rows, input.id).value;
      var after := ApplyArticlePatch(before.val, input);
      FindAfterUpdate(t.rows, before, after, clock + 1);
      PatchedRefsOk(t.rows, cs, ms, before, input);
    }
  }

  /** After a delete the id is gone, the result says whether it was there,
      every other article stays, and deleting again removes nothing. */
  lemma {:induction false} DeleteArticleFacts(t: Table<Article>, id: int)
    requires Chrono(t.rows)
    ensures var (r, t') := DeleteArticleSpec(t, id);
      && r == GetArticleById(t.rows, id).Some?
      && GetArticleById(t'.rows, id).None?
      && DeleteArticleSpec(t', id) == (false, t')
      && forall x | x in t.rows && x.id != id :: GetArticleById(t'.rows, x.id) == Some(x)
  {
    FindAfterRemove(t.rows, id);
  }

  // ------------------------------------------- the store invariant survives

  /** A patch whose named references exist leaves the table's references
      valid: the references it does not name are the row's own. */
  lemma PatchedRefsOk(rows: seq<Row<Article>>, cs: seq<Row<Country>>, ms: seq<Row<Major>>,
                      before: Row<Article>, p: UpdateArticleInput)
    requires ArticleRefsOk(rows, cs, ms) && before in rows
    requires MissingRef(Named(p.countryId), Named(p.majorId), cs, ms).None?
    ensures forall now :: ArticleRefsOk(Update(rows, before.id, ApplyArticlePatch(before.val, p), now), cs, ms)
  {
    var v := ApplyArticlePatch(before.val, p);
    forall now ensures ArticleRefsOk(Update(rows, before.id, v, now), cs, ms) {
      UpdateMembers(rows, before.id, v, now);
    }
  }

  lemma InsertKeepsConsistent(s: Snapshot, v: Article, t: Table<Article>, now: nat)
    requires Consistent(s) && !KeyTaken(s.articles.rows, ArticleSlugOf, v.slug)
    requires MissingRef(v.countryId, v.majorId, s.countries.rows, s.majors.rows).None?
    requires now == s.clock + 1 && t == Insert(s.articles, v, now)
    ensures Consistent(s.(articles := t, clock := now))
  {
    WellFormedLater(s.articles, s.clock, now);
    InsertWellFormed(s.articles, v, now);
    InsertKeepsUnique(s.articles, ArticleSlugOf, v, now);
    NewArticleRefsOk(s.articles.rows, s.countries.rows, s.majors.rows, Row(s.articles.nextId, now, now, v));
    ArticlesReplaced(s, t, now);
  }

  lemma NewArticleRefsOk(as_: seq<Row<Article>>, cs: seq<Row<Country>>, ms: seq<Row<Major>>, x: Row<Article>)
    requires ArticleRefsOk(as_, cs, ms)
    requires MissingRef(x.val.countryId, x.val.majorId, cs, ms).None?
    ensures ArticleRefsOk(as_ + [x], cs, ms)
  {
  }

  lemma UpdateKeepsConsistent(s: Snapshot, before: Row<Article>, p: UpdateArticleInput, v: Article, t: Table<Article>, now: nat)
    requires Consistent(s) && before in s.articles.rows && v == ApplyArticlePatch(before.val, p)
    requires MissingRef(Named(p.countryId), Named(p.majorId), s.countries.rows, s.majors.rows).None?
    requires KeyFreeFor(s.articles.rows, ArticleSlugOf, v.slug, before.id)
    requires now == s.clock + 1 && t == Table(Update(s.articles.rows, before.id, v, now), s.articles.nextId)
    ensures Consistent(s.(articles := t, clock := now))
  {
    WellFormedLater(s.articles, s.clock, now);
    UpdateWellFormed(s.articles, before.id, v, now);
    UpdateKeepsUnique(s.articles.rows, ArticleSlugOf, before.id, v, now);
    PatchedRefsOk(s.articles.rows, s.countries.rows, s.majors.rows, before, p);
    ArticlesReplaced(s, t, now);
  }

  lemma RemoveKeepsConsistent(s: Snapshot, id: int, t: Table<Article>)
    requires Consistent(s)
    requires t == Table(Remove(s.articles.rows, id), s.articles.nextId)
    ensures Consistent(s.(articles := t, clock := s.clock))
  {
    RemoveWellFormed(s.articles, id, s.clock);
    RemoveKeepsUnique(s.articles.rows, ArticleSlugOf, id);
    ArticlesReplaced(s, t, s.clock);
  }
}
