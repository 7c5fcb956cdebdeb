# Study-abroad platform: repository layer

This project models the data layer behind the study-abroad CMS back end:
the nine tables (countries, universities, majors, university–major links,
articles, student inquiries, users, FAQs, site settings), the zod input
schemas that gate them, and every repository handler that reads or writes
them, including the admin dashboard's statistics.

The store is a class, `Store.Db`. It has one field per table plus a logical
clock. Its invariant `Valid` collects the following database constraints:

- rows are in insertion order, with strictly increasing ids;
- `created_at` and `updated_at` never exceed the clock;
- unique slugs, usernames, e-mails, setting keys and university–major pairs;
- every foreign key points at an existing row.

Each write handler is a method on `Db`. It is proved equal to a pure
specification function over the table, and lemmas about that function
state what the handler promises:

- which inputs fail, and with which error;
- that a failure changes nothing;
- what a lookup returns afterwards;
- that every other row is untouched;
- that `updated_at` moves forward while `created_at` stays put.

Each read handler is a function whose contract states its result:

- membership in both directions;
- newest-first or `order_index` order;
- page bounds and totals;
- for FAQs, a permutation of the selected rows.

Most handler bodies in the repository are placeholders that return constants.
Where that happens, the behaviour modelled is the one their test suites and
comments describe, not the placeholder's constant. The fields a create
handler does write explicitly are modelled as written, with two exceptions:

- the `|| null` coalescing, recorded under Findings;
- `createUser` stores the literal `'hashed_password_placeholder'` as the
  hash (server/src/handlers/users.ts:38). The model stores `"hashed_"`
  followed by the password instead, which is what the user tests expect
  (server/src/tests/users.test.ts:50, 68).

## Model

| member | source | states |
|---|---|---|
| Schema.ParseStudyLevel | server/src/schema.ts:4 | accepts exactly DIPLOMA, BACHELOR, MASTER, PHD and returns the level with that name |
| Schema.ParseUserRole | server/src/schema.ts:5 | accepts exactly ADMIN, EDITOR, PARTIAL_SUPERVISOR and returns the role with that name |
| Schema.ParseLanguageCode | server/src/schema.ts:6 | accepts exactly ar, en, tr, ms and returns the language with that code |
| Schema.ParseStatus | server/src/schema.ts:7 | accepts exactly ACTIVE and INACTIVE and returns the status with that name |
| Schema.ParseInquiryStatus | server/src/schema.ts:8 | accepts exactly NEW, CONTACTED, COMPLETED, ARCHIVED and returns the status with that name |
| Schema.EnumNamesRoundTrip | server/src/schema.ts:4-8 | parsing the name of any enum value gives that value back, for all five enums |
| Schema.ParseStudyLevels | server/src/schema.ts:484 | an array of levels is accepted iff every element is a level name; the result has the same length and names, element by element |
| Schema.ParsePagination | server/src/schema.ts:554-557 | accepted iff page is a whole number ≥ 1 and limit a whole number in 1..100, when given; defaults page 1, limit 20; the result is the given number; on failure it names exactly the offending fields |
| Schema.WholePagination | server/src/schema.ts:554-557 | on whole numbers the checks are exactly page ≥ 1 and 1 ≤ limit ≤ 100, and the page and limit come back unchanged |
| Schema.FractionsRefused | server/src/schema.ts:555-556 | a fractional page or limit is refused even inside the range (`.int()`) |
| Schema.ValidateCreateUser | server/src/schema.ts:438-445 | accepted iff the e-mail is well-formed and the password is at least 8 UTF-16 code units long; a failure names exactly the fields at fault |
| Schema.ValidateUpdateUser | server/src/schema.ts:449-457 | like create, but only the fields present are checked |
| Schema.Utf16Length | server/src/schema.ts:441 | a string's JavaScript length lies between its number of characters and twice that, and equals it for text in the Basic Multilingual Plane |
| Schema.FourEmojiPassword | server/src/schema.ts:441 | four emoji already make a password of the minimum length |
| Schema.ValidateCreateStudentInquiry | server/src/schema.ts:399-410 | accepted iff the e-mail is well-formed; otherwise the error names only `email` |
| Fields.OrNullKeepsValue | server/src/schema.ts:130-131 | a supplied value, including 0 or "", survives the coalescing; null and absent both become NULL |
| Fields.JsOrNull | server/src/handlers/universities.ts:53-54 | `x \|\| null` as written: the result is a value iff one was supplied and it is not falsy |
| Fields.ZeroIsLost | server/src/handlers/university-majors.ts:32-35 | `\|\| null` turns a supplied 0 into NULL, whereas the intended coalescing keeps 0 |
| Fields.JsOrNullAgreesOnTruthy | server/src/handlers/countries.ts:50 | the two coalescings agree on every input that is not a falsy value |
| Fields.PatchLaws | server/src/schema.ts:62-83 | patching is idempotent, the empty patch is the identity, and a later patch overrides an earlier one field by field |
| Fields.LocPatchLaws | server/src/schema.ts:62-83 | for the four-language column groups, patching is idempotent, the empty patch is the identity, and two patches in a row equal one in which the later language values win |
| Text.Fold | server/src/handlers/countries.ts:8-22 | case folding keeps the length and lowers each ASCII capital |
| Text.FoldIdempotent | server/src/handlers/countries.ts:8-22 | folding twice is folding once |
| Text.SearchIgnoresTermCase | server/src/handlers/articles.ts:8-22 | a case-insensitive search matches the same rows whatever the case of the term |
| Text.EmptyTermMatches | server/src/handlers/articles.ts:8-22 | an empty search term matches every row |
| Text.OccurrenceIsFound | server/src/handlers/articles.ts:8-22 | a term occurring in a column, up to case, is found |
| Query.NewestFirst | server/src/handlers/countries.ts:8-22 | list results are ordered newest first and hold exactly the given rows |
| Query.Page | server/src/schema.ts:554-557 | a page holds at most `limit` rows, namely the ones at positions offset … offset+limit−1 |
| Query.ListPage | server/src/handlers/countries.ts:8-22 | a paginated list reports page, limit and the total number of matches; its rows all match and are newest first; it holds the page: as many rows as the page has, the k-th being the match with exactly offset+k newer matches; a page past the end is empty |
| Query.PagesAreDetermined | server/src/handlers/countries.ts:8-22 | the rows of a page are fully determined: two lists that both hold page p of the same matches are equal |
| Query.Latest | server/src/handlers/articles.ts:36-40 | the n newest matching rows: min(n, matches) of them, newest first, each newer than every matching row left out |
| Query.PageSizesSum | server/src/handlers/countries.ts:8-22 | the first n pages together hold min(n·limit, total) rows |
| Query.ListPageSize | server/src/handlers/countries.ts:8-22 | page p holds min(limit, total − offset) rows when it is not past the end |
| Query.EveryMatchOnSomePage | server/src/handlers/countries.ts:8-22 | every matching row is listed on some page |
| Store.EmptySnapshot | server/src/db/schema.ts:308-318 | the empty database satisfies every table constraint |
| Store.Db.constructor | server/src/db/schema.ts:308-318 | a new store is empty and valid |
| Countries.GetCountries | server/src/handlers/countries.ts:8-22 | the total is the number of countries matching the status and search filters; the data are those matches, newest first, at exactly the requested page's positions |
| Countries.GetCountryById | server/src/handlers/countries.ts:24-28 | null iff no country has the id; otherwise the row with that id |
| Countries.GetCountryBySlug | server/src/handlers/countries.ts:30-34 | null iff no country has the slug; otherwise a row with that slug |
| Countries.SlugLookupFindsTheCountry | server/src/db/schema.ts:30 | under the unique slug index, a country's slug finds exactly that country |
| Countries.NewCountry | server/src/handlers/countries.ts:36-62 | a created country keeps names and slug, gets status ACTIVE by default and NULL for omitted optional columns |
| Countries.CountryPatchLaws | server/src/schema.ts:62-83 | an empty update changes nothing, and applying an update twice is applying it once |
| Countries.CreateCountryFacts | server/src/handlers/countries.ts:36-62 | fails iff the slug is taken, and then changes nothing; otherwise a fresh id, created = updated = now, found by id and by slug, every old row still found |
| Countries.UpdateCountryFacts | server/src/handlers/countries.ts:65-69 | an unknown id gives null and no change; a slug clash fails without change; otherwise only that row is patched, `created_at` kept, `updated_at` later, slugs still unique |
| Countries.DeleteCountryFacts | server/src/handlers/countries.ts:71-74 | refused iff a university or article refers to the country; otherwise the id is gone, the result says whether it existed, other rows stay, and a second delete reports false |
| Countries.CreateCountry | server/src/handlers/countries.ts:36-62 | the store afterwards is the create specification applied to the old table; the clock advances only on success |
| Countries.UpdateCountry | server/src/handlers/countries.ts:65-69 | the store afterwards is the update specification applied to the old table |
| Countries.DeleteCountry | server/src/handlers/countries.ts:71-74 | the store afterwards is the delete specification, which checks referring universities and articles first |
| Universities.GetUniversities | server/src/handlers/universities.ts:8-22 | the total is the number of universities matching country, status and search; the data are those matches, newest first, at exactly the requested page's positions |
| Universities.GetUniversityById | server/src/handlers/universities.ts:24-28 | null iff no university has the id; otherwise that row |
| Universities.GetUniversityBySlug | server/src/handlers/universities.ts:30-34 | null iff no university has the slug; otherwise a row with that slug |
| Universities.GetUniversitiesByCountry | server/src/handlers/universities.ts:36-40 | exactly the universities of that country, newest first |
| Universities.ByCountryIsComplete | server/src/handlers/universities.ts:36-40 | a university is listed for a country iff it belongs to that country |
| Universities.NewUniversity | server/src/handlers/universities.ts:42-77 | a created university keeps its required columns, gets ACTIVE by default and NULL for omitted optional columns |
| Universities.UniversityPatchLaws | server/src/schema.ts:155-184 | an empty update is the identity, updates are idempotent, an omitted country is kept, and an explicit null gallery clears it |
| Universities.CreateUniversityFacts | server/src/handlers/universities.ts:42-77 | fails iff the country is missing or the slug is taken, and then changes nothing; otherwise the new row is found by id and every old row is kept |
| Universities.UpdateUniversityFacts | server/src/handlers/universities.ts:79-83 | an unknown id gives null; a missing new country fails; otherwise only that row is patched, its country exists and its timestamps move correctly |
| Universities.DeleteUniversityFacts | server/src/handlers/universities.ts:85-88 | refused iff the university still offers a major; otherwise the id is gone, other rows stay, a second delete reports false |
| Universities.CreateUniversity | server/src/handlers/universities.ts:42-77 | the store afterwards is the create specification; the clock advances only on success |
| Universities.UpdateUniversity | server/src/handlers/universities.ts:79-83 | the store afterwards is the update specification |
| Universities.DeleteUniversity | server/src/handlers/universities.ts:85-88 | the store afterwards is the delete specification |
| Majors.GetMajors | server/src/handlers/majors.ts:8-22 | the total is the number of majors matching status, search and university; the data are those matches, newest first, at exactly the requested page's positions |
| Majors.GetMajorById | server/src/handlers/majors.ts:24-28 | null iff no major has the id; otherwise that row, whatever its status |
| Majors.GetMajorBySlug | server/src/handlers/majors.ts:30-34 | null iff no ACTIVE major has the slug; otherwise an ACTIVE row with that slug |
| Majors.SlugLookupSeesActiveOnly | server/src/handlers/majors.ts:30-34 | under unique slugs, a major's slug finds it iff it is ACTIVE |
| Majors.GetMajorsByUniversity | server/src/handlers/majors.ts:36-40 | exactly the ACTIVE majors the university offers, newest first |
| Majors.NewMajor | server/src/handlers/majors.ts:42-73 | a created major keeps names and slug, gets ACTIVE by default and NULL for omitted columns |
| Majors.MajorPatchLaws | server/src/schema.ts:248-273 | an empty update is the identity, and updates are idempotent |
| Majors.CreateMajorFacts | server/src/handlers/majors.ts:42-73 | fails with a slug violation iff the slug is taken, changing nothing; otherwise a fresh row is found by id and old rows are kept |
| Majors.UpdateMajorFacts | server/src/handlers/majors.ts:75-79 | an unknown id gives null; a slug clash fails without change; otherwise only that row is patched with correct timestamps |
| Majors.DeleteMajorFacts | server/src/handlers/majors.ts:81-84 | refused iff a university offers the major or an article refers to it, with the university reason first; otherwise the id is gone and other rows stay |
| Majors.CreateMajor | server/src/handlers/majors.ts:42-73 | the store afterwards is the create specification; the clock advances only on success |
| Majors.UpdateMajor | server/src/handlers/majors.ts:75-79 | the store afterwards is the update specification |
| Majors.DeleteMajor | server/src/handlers/majors.ts:81-84 | the store afterwards is the delete specification |
| UniversityMajors.GetUniversityMajors | server/src/handlers/university-majors.ts:6-10 | exactly the links of that university, newest first |
| UniversityMajors.GetMajorUniversities | server/src/handlers/university-majors.ts:12-16 | exactly the links of that major, newest first |
| UniversityMajors.GetUniversityMajorDetails | server/src/handlers/university-majors.ts:18-22 | null iff the pair is not linked; otherwise the link of that pair |
| UniversityMajors.DetailsFindTheLink | server/src/db/schema.ts:143 | under the unique pair index, a link's pair finds exactly that link |
| UniversityMajors.NewUniversityMajor | server/src/handlers/university-majors.ts:24-43 | a new link keeps its pair and study levels, with NULL for omitted optional columns |
| UniversityMajors.ApplyLinkPatch | server/src/handlers/university-majors.ts:45-53 | an update never changes which university and major the link joins |
| UniversityMajors.LinkPatchLaws | server/src/handlers/university-majors.ts:45-53 | an empty update is the identity, and updates are idempotent |
| UniversityMajors.CreateUniversityMajorFacts | server/src/handlers/university-majors.ts:24-43 | succeeds iff both ends exist, the fees fit NUMERIC(10,2) and the pair is not yet linked; on success the pair finds the new link, pairs stay unique and old links are still found |
| UniversityMajors.UpdateUniversityMajorFacts | server/src/handlers/university-majors.ts:45-53 | an unlinked pair gives null; an empty update returns the stored row unchanged; overflow fails without change; otherwise only that link is patched |
| UniversityMajors.LinksAfterUpdate | server/src/handlers/university-majors.ts:45-53 | rewriting one link's details keeps every pair finding its own link |
| UniversityMajors.DeleteUniversityMajorFacts | server/src/handlers/university-majors.ts:55-58 | the result says whether the pair was linked; afterwards it is not; other links stay; a second delete reports false |
| UniversityMajors.CreateUniversityMajor | server/src/handlers/university-majors.ts:24-43 | the store afterwards is the create specification; the clock advances only on success |
| UniversityMajors.UpdateUniversityMajor | server/src/handlers/university-majors.ts:45-53 | the store afterwards is the update specification |
| UniversityMajors.DeleteUniversityMajor | server/src/handlers/university-majors.ts:55-58 | the store afterwards is the delete specification |
| Articles.GetArticles | server/src/handlers/articles.ts:8-22 | the total is the number of articles matching the filters and search; the data are those matches, newest first, at exactly the requested page's positions |
| Articles.SearchReachesContent | server/src/handlers/articles.ts:8-22 | an article whose content contains the term, up to case, matches the search |
| Articles.GetArticleById | server/src/handlers/articles.ts:24-28 | null iff no article has the id; otherwise that row |
| Articles.GetArticleBySlug | server/src/handlers/articles.ts:30-34 | null iff no ACTIVE article has the slug; otherwise an ACTIVE article with that slug |
| Articles.SlugLookupSeesActiveOnly | server/src/handlers/articles.ts:30-34 | under unique slugs, an article's slug finds it iff it is ACTIVE |
| Articles.GetFeaturedArticles | server/src/handlers/articles.ts:36-40 | the `limit` newest featured ACTIVE articles, each newer than every featured active one left out |
| Articles.GetRelatedArticles | server/src/handlers/articles.ts:42-46 | for a known article, the min(limit, related) newest other articles sharing its country or major, each newer than every related article left out; none for an unknown id |
| Articles.UnlinkedHasNoRelated | server/src/handlers/articles.ts:42-46 | an article with neither a country nor a major has no related articles |
| Articles.GetArticlesByCountry | server/src/handlers/articles.ts:48-52 | ACTIVE articles of the country, newest first: with a limit the min(limit, all) newest, each newer than every one left out; every one without |
| Articles.GetArticlesByMajor | server/src/handlers/articles.ts:54-58 | the same for a major |
| Articles.NewArticle | server/src/handlers/articles.ts:60-95 | a created article keeps title and slug, defaults to ACTIVE and not featured, and stores NULL for omitted columns |
| Articles.ArticlePatchLaws | server/src/schema.ts:345-374 | an empty update is the identity, and updates are idempotent |
| Articles.MissingRef | server/src/db/schema.ts:164-165 | no error iff each given country or major reference exists |
| Articles.CreateArticleFacts | server/src/handlers/articles.ts:60-95 | succeeds iff the given references exist and the slug is free; a failure changes nothing; on success the new row is found and old rows are kept |
| Articles.UpdateArticleFacts | server/src/handlers/articles.ts:97-101 | an unknown id gives null; a missing country fails; otherwise only that row is patched and every reference still exists |
| Articles.DeleteArticleFacts | server/src/handlers/articles.ts:103-106 | the result says whether the id existed; afterwards it does not; other rows stay; a second delete reports false |
| Articles.CreateArticle | server/src/handlers/articles.ts:60-95 | the store afterwards is the create specification; the clock advances only on success |
| Articles.UpdateArticle | server/src/handlers/articles.ts:97-101 | the store afterwards is the update specification |
| Articles.DeleteArticle | server/src/handlers/articles.ts:103-106 | the store afterwards is the delete specification |
| StudentInquiries.GetStudentInquiries | server/src/handlers/student-inquiries.ts:8-22 | the total is the number of inquiries matching status, language, creation-date range and name search; the data are those matches, newest first, at exactly the requested page's positions |
| StudentInquiries.GetStudentInquiryById | server/src/handlers/student-inquiries.ts:24-28 | null iff no inquiry has the id; otherwise that row |
| StudentInquiries.GetNewInquiriesCount | server/src/handlers/student-inquiries.ts:30-34 | the number of inquiries in status NEW: 0 iff none is NEW, never more than the number of inquiries |
| StudentInquiries.GetInquiriesByStatus | server/src/handlers/student-inquiries.ts:36-40 | exactly the inquiries with that status, newest first |
| StudentInquiries.NewCountIsNewList | server/src/handlers/student-inquiries.ts:30-40 | the NEW count equals the length of the NEW list |
| StudentInquiries.NewInquiry | server/src/handlers/student-inquiries.ts:42-62 | a new inquiry is NEW with no notes; it keeps the contact columns and stores NULL for omitted ones |
| StudentInquiries.ApplyInquiryPatch | server/src/schema.ts:414-418 | an update changes only status and notes |
| StudentInquiries.CreateStudentInquiryFacts | server/src/handlers/student-inquiries.ts:42-62 | the new inquiry has a fresh id, is newer than every other one, and raises the NEW count by one |
| StudentInquiries.UpdateStudentInquiryFacts | server/src/handlers/student-inquiries.ts:64-68 | null iff the id is unknown; otherwise only status and notes of that row change, with correct timestamps |
| StudentInquiries.DeleteStudentInquiryFacts | server/src/handlers/student-inquiries.ts:70-74 | the result says whether the id existed; afterwards it does not; other rows stay; a second delete reports false |
| StudentInquiries.CreateStudentInquiry | server/src/handlers/student-inquiries.ts:42-62 | the store afterwards is the create specification and the clock advances |
| StudentInquiries.UpdateStudentInquiry | server/src/handlers/student-inquiries.ts:64-68 | the store afterwards is the update specification |
| StudentInquiries.DeleteStudentInquiry | server/src/handlers/student-inquiries.ts:70-74 | the store afterwards is the delete specification |
| Users.HashPassword | server/src/schema.ts:441 | the stored hash is a fixed marker followed by the password, so it is never the bare password |
| Users.HashInjective | server/src/schema.ts:441 | two passwords with the same hash are equal |
| Users.GetUsers | server/src/handlers/users.ts:7-11 | every user exactly once, newest first |
| Users.GetUserById | server/src/handlers/users.ts:13-17 | null iff no user has the id; otherwise that row |
| Users.GetUserByUsername | server/src/handlers/users.ts:19-23 | null iff no user has the username; otherwise a row with it |
| Users.GetUserByEmail | server/src/handlers/users.ts:25-29 | null iff no user has the e-mail; otherwise a row with it |
| Users.LookupsFindTheUser | server/src/db/schema.ts:214-215 | under the unique indexes, a user's username and e-mail each find exactly that user |
| Users.ValidateUserCredentials | server/src/handlers/users.ts:65-68 | a user is returned only when active, with that username and with the hash of that password |
| Users.CredentialsAccepted | server/src/handlers/users.ts:65-68 | under the unique username index, a login succeeds iff some account has that username, is active and stores the hash of that password |
| Users.NewUser | server/src/handlers/users.ts:31-46 | a new user stores the hash of the password, is active by default and has never logged in |
| Users.ApplyUserPatch | server/src/handlers/users.ts:48-52 | an update never touches `last_login`; a new password replaces the hash, otherwise the hash is kept |
| Users.CreateUserFacts | server/src/handlers/users.ts:31-46 | fails iff the username or e-mail is taken, changing nothing; otherwise the user is found by id, username and e-mail, logs in with that password iff active, and with no other |
| Users.UpdateUserFacts | server/src/handlers/users.ts:48-52 | an unknown id gives null; otherwise only that row is patched, and a new password is the one an active account logs in with |
| Users.DeleteUserFacts | server/src/handlers/users.ts:54-58 | a soft delete keeps the row but deactivates it with a later `updated_at`, so no password logs in; other rows stay |
| Users.UsernameLookupAfterUpdate | server/src/handlers/users.ts:48-52 | rewriting a user without changing the username leaves the username finding the rewritten row |
| Users.LastLoginFacts | server/src/handlers/users.ts:60-63 | a login stamp sets `last_login` and `updated_at` to now for that user and changes nothing else; an unknown id changes nothing |
| Users.CreateUser | server/src/handlers/users.ts:31-46 | the store afterwards is the create specification; the clock advances only on success |
| Users.UpdateUser | server/src/handlers/users.ts:48-52 | the store afterwards is the update specification |
| Users.DeleteUser | server/src/handlers/users.ts:54-58 | the store afterwards is the soft-delete specification |
| Users.UpdateUserLastLogin | server/src/handlers/users.ts:60-63 | the store afterwards is the login-stamp specification |
| Faqs.InsertInOrder | server/src/handlers/faqs.ts:6-10 | inserting into a list sorted by `order_index` keeps it sorted and adds exactly that row |
| Faqs.SortByOrderIndex | server/src/handlers/faqs.ts:6-10 | the result is sorted by `order_index`, ties by id, and is a permutation of the input |
| Faqs.SortKeepsRows | server/src/handlers/faqs.ts:6-10 | sorting keeps the length and the members |
| Faqs.GetFaqs | server/src/handlers/faqs.ts:6-10 | the FAQs of the category, or all of them, sorted by `order_index`, as a permutation of the matching rows |
| Faqs.GetActiveFaqs | server/src/handlers/faqs.ts:18-22 | the same restricted to ACTIVE FAQs |
| Faqs.ListsSelectTheirFaqs | server/src/handlers/faqs.ts:6-22 | a row is listed iff it is in the category (and ACTIVE, for the active list) |
| Faqs.GetFaqById | server/src/handlers/faqs.ts:12-16 | null iff no FAQ has the id; otherwise that row |
| Faqs.NewFaq | server/src/schema.ts:517-531 | a new FAQ keeps question and answer, defaults to index 0 and ACTIVE, and stores NULL for an omitted category |
| Faqs.FaqPatchLaws | server/src/handlers/faqs.ts:45-49 | an empty update is the identity, and updates are idempotent |
| Faqs.FaqWriteFacts | server/src/handlers/faqs.ts:24-49 | a create appends a fresh row found by id; an update gives null iff the id is unknown, otherwise patches only that row with correct timestamps |
| Faqs.DeleteFaqFacts | server/src/handlers/faqs.ts:51-55 | the result says whether the id existed; afterwards it does not; other rows stay; a second delete reports false |
| Faqs.CreateFaq | server/src/handlers/faqs.ts:24-43 | the store afterwards is the create specification and the clock advances |
| Faqs.UpdateFaq | server/src/handlers/faqs.ts:45-49 | the store afterwards is the update specification |
| Faqs.DeleteFaq | server/src/handlers/faqs.ts:51-55 | the store afterwards is the delete specification |
| Faqs.LastOrderFor | server/src/handlers/faqs.ts:57-61 | the index a reorder gives an id: none iff the id is not named, otherwise one named for it |
| Faqs.SetOrderIndex | server/src/handlers/faqs.ts:57-61 | one reorder entry rewrites the row with its id and only that row |
| Faqs.ReorderIsPointwise | server/src/handlers/faqs.ts:57-61 | applying the entries one by one gives each row its own final state, independent of the others |
| Faqs.ReorderWellFormed | server/src/handlers/faqs.ts:57-61 | a reorder keeps ids, order and timestamps within the clock |
| Faqs.ReorderFacts | server/src/handlers/faqs.ts:57-61 | succeeds iff every named id exists, and a refusal changes nothing; each named FAQ gets its last given index and a later `updated_at`; other columns and unnamed FAQs are untouched |
| Faqs.ReorderFaqs | server/src/handlers/faqs.ts:57-61 | the loops check every id, then rewrite the rows; the store afterwards is the reorder specification |
| Settings.GetAllSettings | server/src/handlers/settings.ts:6-10 | exactly the stored settings |
| Settings.GetSettingByKey | server/src/handlers/settings.ts:12-16 | null iff no setting has the key; otherwise the setting with that key |
| Settings.KeyFindsTheSetting | server/src/db/schema.ts:255 | under the unique key, a setting's key finds it and no other row shares the key |
| Settings.GetSettingsByCategory | server/src/handlers/settings.ts:18-22 | exactly the settings of that category |
| Settings.Upsert | server/src/handlers/settings.ts:24-28 | an unknown key inserts a setting without description or category; a known key gets the new value |
| Settings.UpsertKeepsInvariant | server/src/handlers/settings.ts:24-28 | an upsert keeps ids, timestamps and key uniqueness |
| Settings.UpsertFacts | server/src/handlers/settings.ts:24-28 | afterwards exactly one row has the key, with the new value and `updated_at` now; an existing row keeps id, `created_at`, description and category; other keys are unaffected |
| Settings.OtherKeysKept | server/src/handlers/settings.ts:24-28 | an upsert leaves the lookup of every other key unchanged |
| Settings.UpdateSetting | server/src/handlers/settings.ts:24-28 | the store afterwards is the upsert and the clock advances |
| Settings.LastValueFor | server/src/handlers/settings.ts:30-34 | the value a batch gives a key: none iff the key is not named, otherwise one given for it |
| Settings.UpsertAllKeepsInvariant | server/src/handlers/settings.ts:30-34 | a batch of upserts keeps ids, timestamps and key uniqueness |
| Settings.UpsertAllFacts | server/src/handlers/settings.ts:30-34 | after a batch each named key holds the last value given for it, and every other key is unaffected |
| Settings.UpdateMultipleSettings | server/src/handlers/settings.ts:30-34 | always reports success; the loop leaves the store equal to the batch upsert; an empty batch does not move the clock |
| Settings.GetSupportedLanguages | server/src/handlers/settings.ts:36-40 | without a `supported_languages` setting the list is ar, en, tr, ms |
| Settings.SupportedLanguagesFromSetting | server/src/handlers/settings.ts:36-40 | with the setting, the list is its parsed value, or the default when it does not parse |
| Settings.GetEmailSettings | server/src/handlers/settings.ts:42-46 | exactly the settings of category `email` |
| Settings.GetSeoSettings | server/src/handlers/settings.ts:48-51 | exactly the settings of category `seo` |
| Dashboard.CountByStatus | server/src/schema.ts:606-618 | holds exactly the statuses some inquiry has, each with its count, which is positive |
| Dashboard.CountByLanguage | server/src/schema.ts:606-618 | holds exactly the languages some inquiry uses, each with its positive count |
| Dashboard.StatusGroupsAddUp | server/src/handlers/dashboard.ts:5-19 | the status counts add up to the number of inquiries |
| Dashboard.LanguageGroupsAddUp | server/src/handlers/dashboard.ts:5-19 | the language counts add up to the number of inquiries |
| Dashboard.StatusesPartition | server/src/schema.ts:8 | every inquiry has exactly one of the four statuses |
| Dashboard.LanguagesPartition | server/src/schema.ts:6 | every inquiry has exactly one of the four languages |
| Dashboard.NewSince | server/src/handlers/dashboard.ts:5-19 | the number of inquiries created at or after the start of the day: 0 iff every inquiry is older, never more than the total |
| Dashboard.NewSinceCountsCreates | server/src/handlers/dashboard.ts:5-19 | a newly created inquiry counts as today's iff it was created after the day began |
| Dashboard.RecentInquiries | server/src/handlers/dashboard.ts:5-19 | the min(10, total) newest inquiries, newest first, each newer than every inquiry left out |
| Dashboard.NewestLeads | server/src/handlers/dashboard.ts:5-19 | the first recent inquiry is newer than every other inquiry |
| Dashboard.GetDashboardStats | server/src/handlers/dashboard.ts:5-19 | the totals are the table sizes; today's count, the two groupings and the recent list are those of the inquiries table; the recent list has min(10, total) entries |
| Dashboard.DashboardAddsUp | server/src/handlers/dashboard.ts:5-19 | the status groups and the language groups of one dashboard each add up to its inquiry total, and with at most ten inquiries the recent list holds them all |
| Dashboard.EmptyDashboard | server/src/handlers/dashboard.ts:5-19 | on an empty store every count is 0, both groupings are empty and there are no recent inquiries |

## Left out

- HTTP transport and routing (`server/src/index.ts`) are not part of this model.
- `exportStudentInquiries` is not modelled. It produces a CSV or Excel file, which is an output format and not a repository operation.
- `getVisitorAnalytics`, `getContentStats` and `getInquiryTrends` are not modelled. They return fixed mock data with no relation to the tables.
- Wall-clock time is a logical clock that advances by one per write. Deletes do not tick it, except a user's soft delete, which is an update.
- "The start of today" for the dashboard is a parameter (`dayStart`).
- E-mail well-formedness is a parameter (`isEmail`).
- The JSON parse of the `supported_languages` value is a parameter (`parse`).
- Users.HashPassword: real password hashing (bcrypt and the like) is replaced by a fixed-prefix injective encoding. Only injectivity is relied on.
- Text.Fold: case-insensitive search folds ASCII letters only. SQL `ILIKE` under a Unicode collation also folds other scripts.
- Columns of type `integer` are unbounded here. Only the NUMERIC(10,2) tuition fees are range-checked, because that overflow is a documented error.
- Tuition fees are integer cents, not the strings and floats the driver exchanges.
- Relation embedding (the drizzle `relations` used to attach a country to a university, for example) is not modelled. Lookups return rows only.
- Transactions and concurrent requests are not modelled. Every handler runs atomically on the store.
- Multilingual columns are modelled as groups of four strings (`Loc`). Their contents are not inspected except in search.
- Most handler bodies are placeholders that return `null`, `false`, `[]` or an object with id 0. The model follows the behaviour their test suites and comments require, not those constants.
- Query.NewestFirst: newest first is read as insertion order reversed, which holds because every write stamps `created_at` from the store's clock (`Tables.Chrono`). A `created_at` rewritten behind the handlers' back, as the dashboard test does to make an inquiry look a day old (server/src/tests/dashboard.test.ts:173-176), is outside the model.
- Schema.ParsePagination: JSON numbers are modelled as reals. NaN and the infinities, which `z.number()` refuses, cannot be written down, so they need no case.

## Findings

| source | as written | input that shows it | evidently intended | confidence | as-written member | corrected member |
|---|---|---|---|---|---|---|
| server/src/handlers/university-majors.ts:32-35 | optional columns are stored as `input.x \|\| null` | `tuition_fee_min: 0` (likewise `global_ranking: 0` at universities.ts:53, `category: ""` at faqs.ts:38) is stored as NULL | a supplied value is stored as given; only `undefined` or `null` become NULL (`?? null`) | high, not executed | Fields.ZeroIsLost | Fields.OrNullKeepsValue |
