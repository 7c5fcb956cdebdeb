/** The request-side schema: the enumerations, the shapes of the inputs each
    operation accepts, the defaults the validator fills in and the checks it
    makes before an operation runs. */
module Schema {
  import opened Wrappers

  // ---------------------------------------------------------------- enums

  datatype StudyLevel = Diploma | Bachelor | Master | Phd
  datatype UserRole = Admin | Editor | PartialSupervisor
  datatype LanguageCode = Ar | En | Tr | Ms
  datatype Status = Active | Inactive
  datatype InquiryStatus = New | Contacted | Completed | Archived

  function StudyLevelName(l: StudyLevel): string
  {
    match l
    case Diploma => "DIPLOMA"
    case Bachelor => "BACHELOR"
    case Master => "MASTER"
    case Phd => "PHD"
  }

  function UserRoleName(r: UserRole): string
  {
    match r
    case Admin => "ADMIN"
    case Editor => "EDITOR"
    case PartialSupervisor => "PARTIAL_SUPERVISOR"
  }

  function LanguageCodeName(c: LanguageCode): string
  {
    match c
    case Ar => "ar"
    case En => "en"
    case Tr => "tr"
    case Ms => "ms"
  }

  function StatusName(s: Status): string
  {
    match s
    case Active => "ACTIVE"
    case Inactive => "INACTIVE"
  }

  function InquiryStatusName(s: InquiryStatus): string
  {
    match s
    case New => "NEW"
    case Contacted => "CONTACTED"
    case Completed => "COMPLETED"
    case Archived => "ARCHIVED"
  }

  /** Every language code, in the order the site lists them. */
  const AllLanguageCodes: seq<LanguageCode> := [Ar, En, Tr, Ms]
  const AllInquiryStatuses: seq<InquiryStatus> := [New, Contacted, Completed, Archived]

  /** Parsing a wire string accepts exactly the listed names, and gives back
      the value whose name it is. */
  function ParseStudyLevel(s: string): (r: Option<StudyLevel>)
    ensures r.Some? <==> s in {"DIPLOMA", "BACHELOR", "MASTER", "PHD"}
    ensures r.Some? ==> StudyLevelName(r.value) == s
  {
    if s == "DIPLOMA" then Some(Diploma)
    else if s == "BACHELOR" then Some(Bachelor)
    else if s == "MASTER" then Some(Master)
    else if s == "PHD" then Some(Phd)
    else None
  }

  function ParseUserRole(s: string): (r: Option<UserRole>)
    ensures r.Some? <==> s in {"ADMIN", "EDITOR", "PARTIAL_SUPERVISOR"}
    ensures r.Some? ==> UserRoleName(r.value) == s
  {
    if s == "ADMIN" then Some(Admin)
    else if s == "EDITOR" then Some(Editor)
    else if s == "PARTIAL_SUPERVISOR" then Some(PartialSupervisor)
    else None
  }

  function ParseLanguageCode(s: string): (r: Option<LanguageCode>)
    ensures r.Some? <==> s in {"ar", "en", "tr", "ms"}
    ensures r.Some? ==> LanguageCodeName(r.value) == s
  {
    if s == "ar" then Some(Ar)
    else if s == "en" then Some(En)
    else if s == "tr" then Some(Tr)
    else if s == "ms" then Some(Ms)
    else None
  }

  function ParseStatus(s: string): (r: Option<Status>)
    ensures r.Some? <==> s in {"ACTIVE", "INACTIVE"}
    ensures r.Some? ==> StatusName(r.value) == s
  {
    if s == "ACTIVE" then Some(Active)
    else if s == "INACTIVE" then Some(Inactive)
    else None
  }

  function ParseInquiryStatus(s: string): (r: Option<InquiryStatus>)
    ensures r.Some? <==> s in {"NEW", "CONTACTED", "COMPLETED", "ARCHIVED"}
    ensures r.Some? ==> InquiryStatusName(r.value) == s
  {
    if s == "NEW" then Some(New)
    else if s == "CONTACTED" then Some(Contacted)
    else if s == "COMPLETED" then Some(Completed)
    else if s == "ARCHIVED" then Some(Archived)
    else None
  }

  /** Every enum value survives a trip to its wire name and back. */
  lemma EnumNamesRoundTrip(l: StudyLevel, r: UserRole, c: LanguageCode, s: Status, i: InquiryStatus)
    ensures ParseStudyLevel(StudyLevelName(l)) == Some(l)
    ensures ParseUserRole(UserRoleName(r)) == Some(r)
    ensures ParseLanguageCode(LanguageCodeName(c)) == Some(c)
    ensures ParseStatus(StatusName(s)) == Some(s)
    ensures ParseInquiryStatus(InquiryStatusName(i)) == Some(i)
  {
  }

  /** `z.array(studyLevelEnum)`: the array is accepted when every element is a
      study level, and the parsed levels keep the order of the input. */
  function ParseStudyLevels(ss: seq<string>): (r: Option<seq<StudyLevel>>)
    ensures r.Some? <==> forall i | 0 <= i < |ss| :: ParseStudyLevel(ss[i]).Some?
    ensures r.Some? ==> |r.value| == |ss| && forall i | 0 <= i < |ss| :: StudyLevelName(r.value[i]) == ss[i]
  {
    if ss == [] then Some([])
    else
      match (ParseStudyLevel(ss[0]), ParseStudyLevels(ss[1..]))
      case (Some(l), Some(ls)) =>
        assert forall i | 1 <= i < |ss| :: ss[i] == ss[1..][i - 1];
        Some([l] + ls)
      case (None, _) => None
      case (_, None) =>
        assert forall i | 0 <= i < |ss| - 1 :: ss[1..][i] == ss[i + 1];
        None
  }

  // -------------------------------------------------------- localised text

  /** One value per supported language: the `_ar`, `_en`, `_tr` and `_ms`
      columns of a localised field. */
  datatype Loc<T> = Loc(ar: T, en: T, tr: T, ms: T)

  /** The four variants of a localised field, in language order. */
  function Variants<T>(l: Loc<T>): seq<T>
  {
    [l.ar, l.en, l.tr, l.ms]
  }

  /** A field that may be omitted, given as null or given a value:
      `None` is omitted, `Some(None)` is an explicit null. */
  type Nullish<T> = Option<Option<T>>

  // ----------------------------------------------------------- pagination

  const DefaultPage: int := 1
  const DefaultLimit: int := 20
  const MaxLimit: int := 100

  type PageNumber = n: int | 1 <= n witness 1
  type PageLimit = n: int | 1 <= n <= MaxLimit witness 20

  datatype Pagination = Pagination(page: PageNumber, limit: PageLimit)

  /** The fields of a request that the validator refused. */
  datatype ValidationError = Invalid(fields: set<string>)

  /** A JSON number that is a whole number (`z.number().int()`). */
  predicate IsWhole(x: real)
  {
    x.Floor as real == x
  }

  /** `paginationInputSchema`: page a positive whole number defaulting to 1,
      limit a positive whole number of at most 100 defaulting to 20. The
      request carries JSON numbers, so a fraction such as 1.5 reaches the
      validator and is refused. */
  function ParsePagination(page: Option<real>, limit: Option<real>): (r: Result<Pagination, ValidationError>)
    ensures r.Success? <==>
      && (page.None? || (IsWhole(page.value) && page.value >= 1.0))
      && (limit.None? || (IsWhole(limit.value) && 1.0 <= limit.value <= MaxLimit as real))
    ensures r.Success? ==> r.value.page as real == page.GetOr(DefaultPage as real)
    ensures r.Success? ==> r.value.limit as real == limit.GetOr(DefaultLimit as real)
    ensures r.Failure? ==>
      ("page" in r.error.fields <==> page.Some? && !(IsWhole(page.value) && page.value >= 1.0))
    ensures r.Failure? ==>
      ("limit" in r.error.fields <==> limit.Some? && !(IsWhole(limit.value) && 1.0 <= limit.value <= MaxLimit as real))
  {
    var p := page.GetOr(DefaultPage as real);
    var l := limit.GetOr(DefaultLimit as real);
    var pageOk := IsWhole(p) && p >= 1.0;
    var limitOk := IsWhole(l) && 1.0 <= l <= MaxLimit as real;
    var bad := (if pageOk then {} else {"page"}) + (if limitOk then {} else {"limit"});
    if bad == {} then Success(Pagination(p.Floor, l.Floor)) else Failure(Invalid(bad))
  }

  /** On whole numbers the checks are the integer bounds, and the page and
      limit come back as given. */
  lemma WholePagination(page: int, limit: int)
    ensures var r := ParsePagination(Some(page as real), Some(limit as real));
      && (r.Success? <==> page >= 1 && 1 <= limit <= MaxLimit)
      && (r.Success? ==> r.value == Pagination(page, limit))
  {
    assert IsWhole(page as real) && IsWhole(limit as real);
  }

  /** A fractional page or limit is refused even when it lies in range. */
  lemma FractionsRefused()
    ensures ParsePagination(Some(1.5), None).Failure?
    ensures ParsePagination(None, Some(10.5)).Failure?
  {
    assert !IsWhole(1.5) by { assert (1.5).Floor == 1; }
    assert !IsWhole(10.5) by { assert (10.5).Floor == 10; }
  }

  // ----------------------------------------------------------- list inputs

  datatype CountriesQuery = CountriesQuery(
    pagination: Pagination, status: Option<Status>, search: Option<string>)

  datatype UniversitiesQuery = UniversitiesQuery(
    pagination: Pagination, countryId: Option<int>, status: Option<Status>, search: Option<string>)

  datatype MajorsQuery = MajorsQuery(
    pagination: Pagination, universityId: Option<int>, status: Option<Status>, search: Option<string>)

  datatype ArticlesQuery = ArticlesQuery(
    pagination: Pagination, countryId: Option<int>, majorId: Option<int>, category: Option<string>,
    status: Option<Status>, isFeatured: Option<bool>, search: Option<string>)

  /** `dateFrom` and `dateTo` are instants of the store's clock. */
  datatype InquiriesQuery = InquiriesQuery(
    pagination: Pagination, status: Option<InquiryStatus>, languageCode: Option<LanguageCode>,
    dateFrom: Option<nat>, dateTo: Option<nat>, search: Option<string>)

  // ------------------------------------------------- create and update inputs

  datatype CreateCountryInput = CreateCountryInput(
    name: Loc<string>, slug: string, description: Loc<Nullish<string>>, imageUrl: Nullish<string>,
    status: Option<Status>, metaTitle: Loc<Nullish<string>>, metaDescription: Loc<Nullish<string>>)

  datatype UpdateCountryInput = UpdateCountryInput(
    id: int, name: Loc<Option<string>>, slug: Option<string>, description: Loc<Nullish<string>>,
    imageUrl: Nullish<string>, status: Option<Status>,
    metaTitle: Loc<Nullish<string>>, metaDescription: Loc<Nullish<string>>)

  datatype CreateUniversityInput = CreateUniversityInput(
    name: Loc<string>, slug: string, countryId: int,
    globalRanking: Nullish<int>, localRanking: Nullish<int>,
    teachingLanguage: Loc<Nullish<string>>, description: Loc<Nullish<string>>,
    imageUrl: Nullish<string>, galleryImages: Nullish<seq<string>>, status: Option<Status>,
    metaTitle: Loc<Nullish<string>>, metaDescription: Loc<Nullish<string>>)

  datatype UpdateUniversityInput = UpdateUniversityInput(
    id: int, name: Loc<Option<string>>, slug: Option<string>, countryId: Option<int>,
    globalRanking: Nullish<int>, localRanking: Nullish<int>,
    teachingLanguage: Loc<Nullish<string>>, description: Loc<Nullish<string>>,
    imageUrl: Nullish<string>, galleryImages: Nullish<seq<string>>, status: Option<Status>,
    metaTitle: Loc<Nullish<string>>, metaDescription: Loc<Nullish<string>>)

  datatype CreateMajorInput = CreateMajorInput(
    name: Loc<string>, slug: string, description: Loc<Nullish<string>>,
    futureOpportunities: Loc<Nullish<string>>, imageUrl: Nullish<string>, status: Option<Status>,
    metaTitle: Loc<Nullish<string>>, metaDescription: Loc<Nullish<string>>)

  datatype UpdateMajorInput = UpdateMajorInput(
    id: int, name: Loc<Option<string>>, slug: Option<string>, description: Loc<Nullish<string>>,
    futureOpportunities: Loc<Nullish<string>>, imageUrl: Nullish<string>, status: Option<Status>,
    metaTitle: Loc<Nullish<string>>, metaDescription: Loc<Nullish<string>>)

  datatype CreateArticleInput = CreateArticleInput(
    title: Loc<string>, slug: string, content: Loc<Nullish<string>>, excerpt: Loc<Nullish<string>>,
    featuredImageUrl: Nullish<string>, category: Nullish<string>,
    countryId: Nullish<int>, majorId: Nullish<int>, status: Option<Status>, isFeatured: Option<bool>,
    metaTitle: Loc<Nullish<string>>, metaDescription: Loc<Nullish<string>>)

  datatype UpdateArticleInput = UpdateArticleInput(
    id: int, title: Loc<Option<string>>, slug: Option<string>,
    content: Loc<Nullish<string>>, excerpt: Loc<Nullish<string>>,
    featuredImageUrl: Nullish<string>, category: Nullish<string>,
    countryId: Nullish<int>, majorId: Nullish<int>, status: Option<Status>, isFeatured: Option<bool>,
    metaTitle: Loc<Nullish<string>>, metaDescription: Loc<Nullish<string>>)

  datatype CreateStudentInquiryInput = CreateStudentInquiryInput(
    fullName: string, email: string, phone: string, whatsapp: Nullish<string>,
    desiredCountry: Nullish<string>, studyLevel: Nullish<StudyLevel>, desiredMajor: Nullish<string>,
    message: Nullish<string>, sourcePage: Nullish<string>, languageCode: LanguageCode)

  datatype UpdateStudentInquiryInput = UpdateStudentInquiryInput(
    id: int, status: Option<InquiryStatus>, notes: Nullish<string>)

  datatype CreateUserInput = CreateUserInput(
    username: string, email: string, password: string, fullName: string, role: UserRole,
    isActive: Option<bool>)

  datatype UpdateUserInput = UpdateUserInput(
    id: int, username: Option<string>, email: Option<string>, password: Option<string>,
    fullName: Option<string>, role: Option<UserRole>, isActive: Option<bool>)

  /** Tuition fees are carried as whole cents. */
  datatype CreateUniversityMajorInput = CreateUniversityMajorInput(
    universityId: int, majorId: int, studyLevels: seq<StudyLevel>,
    tuitionFeeMin: Nullish<int>, tuitionFeeMax: Nullish<int>, currency: Nullish<string>,
    durationYears: Nullish<int>, requirements: Loc<Nullish<string>>)

  /** The non-key part of `Partial<CreateUniversityMajorInput>`. */
  datatype UniversityMajorPatch = UniversityMajorPatch(
    studyLevels: Option<seq<StudyLevel>>,
    tuitionFeeMin: Nullish<int>, tuitionFeeMax: Nullish<int>, currency: Nullish<string>,
    durationYears: Nullish<int>, requirements: Loc<Nullish<string>>)

  datatype CreateFaqInput = CreateFaqInput(
    question: Loc<string>, answer: Loc<string>, orderIndex: Option<int>,
    category: Nullish<string>, status: Option<Status>)

  /** `Partial<CreateFAQInput>`. */
  datatype FaqPatch = FaqPatch(
    question: Loc<Option<string>>, answer: Loc<Option<string>>, orderIndex: Option<int>,
    category: Nullish<string>, status: Option<Status>)

  datatype UpdateSettingsInput = UpdateSettingsInput(key: string, value: string)

  // ------------------------------------------------------------ validation

  const MinPasswordLength: int := 8

  /** The length of a string as JavaScript counts it, in UTF-16 code units:
      a character outside the Basic Multilingual Plane takes two. */
  function Utf16Length(s: string): (n: nat)
    ensures |s| <= n <= 2 * |s|
    ensures (forall i | 0 <= i < |s| :: (s[i] as int) < 0x1_0000) ==> n == |s|
  {
    if s == [] then 0
    else (if (s[0] as int) < 0x1_0000 then 1 else 2) + Utf16Length(s[1..])
  }

  /** `createUserInputSchema`: the email must be well formed (the format check
      is the parameter `isEmail`) and the password at least 8 UTF-16 code
      units long. */
  function ValidateCreateUser(input: CreateUserInput, isEmail: string -> bool): (r: Result<CreateUserInput, ValidationError>)
    ensures r.Success? <==> isEmail(input.email) && Utf16Length(input.password) >= MinPasswordLength
    ensures r.Success? ==> r.value == input
    ensures r.Failure? ==> ("email" in r.error.fields <==> !isEmail(input.email))
    ensures r.Failure? ==> ("password" in r.error.fields <==> Utf16Length(input.password) < MinPasswordLength)
  {
    var bad := (if isEmail(input.email) then {} else {"email"})
             + (if Utf16Length(input.password) >= MinPasswordLength then {} else {"password"});
    if bad == {} then Success(input) else Failure(Invalid(bad))
  }

  /** `updateUserInputSchema`: the same checks, on the fields that are given. */
  function ValidateUpdateUser(input: UpdateUserInput, isEmail: string -> bool): (r: Result<UpdateUserInput, ValidationError>)
    ensures r.Success? <==>
      (input.email.None? || isEmail(input.email.value)) &&
      (input.password.None? || Utf16Length(input.password.value) >= MinPasswordLength)
    ensures r.Success? ==> r.value == input
    ensures r.Failure? ==> ("email" in r.error.fields <==> input.email.Some? && !isEmail(input.email.value))
    ensures r.Failure? ==> ("password" in r.error.fields <==> input.password.Some? && Utf16Length(input.password.value) < MinPasswordLength)
  {
    var bad := (if input.email.None? || isEmail(input.email.value) then {} else {"email"})
             + (if input.password.None? || Utf16Length(input.password.value) >= MinPasswordLength then {} else {"password"});
    if bad == {} then Success(input) else Failure(Invalid(bad))
  }

  /** Four emoji make a long enough password: each takes two code units. */
  lemma FourEmojiPassword()
    ensures Utf16Length("\U{1F600}\U{1F600}\U{1F600}\U{1F600}") == MinPasswordLength
  {
    var e := "\U{1F600}";
    assert "\U{1F600}\U{1F600}\U{1F600}\U{1F600}"[1..] == e + e + e;
    assert (e + e + e)[1..] == e + e;
    assert (e + e)[1..] == e;
  }

  /** `createStudentInquiryInputSchema`: the email must be well formed. */
  function ValidateCreateStudentInquiry(input: CreateStudentInquiryInput, isEmail: string -> bool): (r: Result<CreateStudentInquiryInput, ValidationError>)
    ensures r.Success? <==> isEmail(input.email)
    ensures r.Success? ==> r.value == input
    ensures r.Failure? ==> r.error.fields == {"email"}
  {
    if isEmail(input.email) then Success(input) else Failure(Invalid({"email"}))
  }
}
