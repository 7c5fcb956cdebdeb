/** The relational schema: the columns of each table (besides `id`,
    `created_at` and `updated_at`, which every table has and `Tables.Row`
    carries) and the constraints the database enforces across rows. */
module DbSchema {
  import opened Wrappers
  import opened Schema
  import opened Tables

  datatype Country = Country(
    name: Loc<string>, slug: string, description: Loc<Option<string>>, imageUrl: Option<string>,
    status: Status, metaTitle: Loc<Option<string>>, metaDescription: Loc<Option<string>>)

  datatype University = University(
    name: Loc<string>, slug: string, countryId: int,
    globalRanking: Option<int>, localRanking: Option<int>,
    teachingLanguage: Loc<Option<string>>, description: Loc<Option<string>>,
    imageUrl: Option<string>, galleryImages: Option<seq<string>>, status: Status,
    metaTitle: Loc<Option<string>>, metaDescription: Loc<Option<string>>)

  datatype Major = Major(
    name: Loc<string>, slug: string, description: Loc<Option<string>>,
    futureOpportunities: Loc<Option<string>>, imageUrl: Option<string>, status: Status,
    metaTitle: Loc<Option<string>>, metaDescription: Loc<Option<string>>)

  /** Tuition fees are whole cents of a `numeric(10,2)` column. */
  datatype UniversityMajor = UniversityMajor(
    universityId: int, majorId: int, studyLevels: seq<StudyLevel>,
    tuitionFeeMin: Option<int>, tuitionFeeMax: Option<int>, currency: Option<string>,
    durationYears: Option<int>, requirements: Loc<Option<string>>)

  datatype Article = Article(
    title: Loc<string>, slug: string, content: Loc<Option<string>>, excerpt: Loc<Option<string>>,
    featuredImageUrl: Option<string>, category: Option<string>,
    countryId: Option<int>, majorId: Option<int>, status: Status, isFeatured: bool,
    metaTitle: Loc<Option<string>>, metaDescription: Loc<Option<string>>)

  datatype StudentInquiry = StudentInquiry(
    fullName: string, email: string, phone: string, whatsapp: Option<string>,
    desiredCountry: Option<string>, studyLevel: Option<StudyLevel>, desiredMajor: Option<string>,
    message: Option<string>, sourcePage: Option<string>, languageCode: LanguageCode,
    status: InquiryStatus, notes: Option<string>)

  /** `lastLogin` is an instant of the store's clock. */
  datatype User = User(
    username: string, email: string, passwordHash: string, fullName: string, role: UserRole,
    isActive: bool, lastLogin: Option<nat>)

  datatype Faq = Faq(
    question: Loc<string>, answer: Loc<string>, orderIndex: int, category: Option<string>,
    status: Status)

  datatype Setting = Setting(key: string, value: string, description: Option<string>, category: Option<string>)

  // ------------------------------------------------------ unique columns

  function CountrySlugOf(c: Country): string { c.slug }
  function UniversitySlugOf(u: University): string { u.slug }
  function MajorSlugOf(m: Major): string { m.slug }
  function ArticleSlugOf(a: Article): string { a.slug }
  function PairOf(m: UniversityMajor): (int, int) { (m.universityId, m.majorId) }
  function UsernameOf(u: User): string { u.username }
  function UserEmailOf(u: User): string { u.email }
  function SettingKeyOf(s: Setting): string { s.key }

  // ------------------------------------------------------- foreign keys

  /** `universities.country_id` references `countries.id` (not null). */
  predicate UniversityRefsOk(us: seq<Row<University>>, cs: seq<Row<Country>>)
  {
    forall u | u in us :: HasId(cs, u.val.countryId)
  }

  /** `university_majors.university_id` and `.major_id` reference their rows. */
  predicate UniversityMajorRefsOk(ums: seq<Row<UniversityMajor>>, us: seq<Row<University>>, ms: seq<Row<Major>>)
  {
    forall r | r in ums :: HasId(us, r.val.universityId) && HasId(ms, r.val.majorId)
  }

  /** `articles.country_id` and `.major_id` are null or reference their rows. */
  predicate ArticleRefsOk(as_: seq<Row<Article>>, cs: seq<Row<Country>>, ms: seq<Row<Major>>)
  {
    forall a | a in as_ ::
      (a.val.countryId.Some? ==> HasId(cs, a.val.countryId.value)) &&
      (a.val.majorId.Some? ==> HasId(ms, a.val.majorId.value))
  }

  /** A write that keeps every referenced id keeps every foreign key. */
  lemma UniversityRefsKept(us: seq<Row<University>>, cs: seq<Row<Country>>, cs': seq<Row<Country>>)
    requires UniversityRefsOk(us, cs) && IdsKept(cs, cs')
    ensures UniversityRefsOk(us, cs')
  {
  }

  lemma UniversityMajorRefsKept(ums: seq<Row<UniversityMajor>>, us: seq<Row<University>>, us': seq<Row<University>>,
                                ms: seq<Row<Major>>, ms': seq<Row<Major>>)
    requires UniversityMajorRefsOk(ums, us, ms) && IdsKept(us, us') && IdsKept(ms, ms')
    ensures UniversityMajorRefsOk(ums, us', ms')
  {
  }

  lemma ArticleRefsKept(as_: seq<Row<Article>>, cs: seq<Row<Country>>, cs': seq<Row<Country>>,
                        ms: seq<Row<Major>>, ms': seq<Row<Major>>)
    requires ArticleRefsOk(as_, cs, ms) && IdsKept(cs, cs') && IdsKept(ms, ms')
    ensures ArticleRefsOk(as_, cs', ms')
  {
  }

  // ------------------------------------------------------ numeric(10,2)

  /** Ten significant digits, two after the point: at most 99999999.99. */
  const NumericLimitCents: int := 10_000_000_000

  predicate FitsNumeric(cents: Option<int>)
  {
    cents.None? || -NumericLimitCents < cents.value < NumericLimitCents
  }

  predicate TuitionFits(ums: seq<Row<UniversityMajor>>)
  {
    forall r | r in ums :: FitsNumeric(r.val.tuitionFeeMin) && FitsNumeric(r.val.tuitionFeeMax)
  }
}
