/** The relational store every handler reads and writes: one table per
    entity, a logical clock that stands in for `now()`, and the invariant
    that the schema's keys, unique indexes and foreign keys impose. */
module Store {
  import opened Tables
  import opened DbSchema

  /** The whole database as a value. */
  datatype Snapshot = Snapshot(
    countries: Table<Country>,
    universities: Table<University>,
    majors: Table<Major>,
    universityMajors: Table<UniversityMajor>,
    articles: Table<Article>,
    inquiries: Table<StudentInquiry>,
    users: Table<User>,
    faqs: Table<Faq>,
    settings: Table<Setting>,
    clock: nat)

  /** Every table well formed against the clock, every unique index and every
      foreign key of the schema respected, every tuition fee in range. */
  predicate Consistent(s: Snapshot)
  {
    && WellFormed(s.countries, s.clock)
    && WellFormed(s.universities, s.clock)
    && WellFormed(s.majors, s.clock)
    && WellFormed(s.universityMajors, s.clock)
    && WellFormed(s.articles, s.clock)
    && WellFormed(s.inquiries, s.clock)
    && WellFormed(s.users, s.clock)
    && WellFormed(s.faqs, s.clock)
    && WellFormed(s.settings, s.clock)
    && UniqueBy(s.countries.rows, CountrySlugOf)
    && UniqueBy(s.universities.rows, UniversitySlugOf)
    && UniqueBy(s.majors.rows, MajorSlugOf)
    && UniqueBy(s.articles.rows, ArticleSlugOf)
    && UniqueBy(s.universityMajors.rows, PairOf)
    && UniqueBy(s.users.rows, UsernameOf)
    && UniqueBy(s.users.rows, UserEmailOf)
    && UniqueBy(s.settings.rows, SettingKeyOf)
    && UniversityRefsOk(s.universities.rows, s.countries.rows)
    && UniversityMajorRefsOk(s.universityMajors.rows, s.universities.rows, s.majors.rows)
    && ArticleRefsOk(s.articles.rows, s.countries.rows, s.majors.rows)
    && TuitionFits(s.universityMajors.rows)
  }

  /** The clock only moves forward: every write stamps rows with an instant
      no earlier than any timestamp already stored, and the invariant
      survives. */
  lemma Later(s: Snapshot, now: nat)
    requires Consistent(s) && s.clock <= now
    ensures Consistent(s.(clock := now))
  {
    WellFormedLater(s.countries, s.clock, now);
    WellFormedLater(s.universities, s.clock, now);
    WellFormedLater(s.majors, s.clock, now);
    WellFormedLater(s.universityMajors, s.clock, now);
    WellFormedLater(s.articles, s.clock, now);
    WellFormedLater(s.inquiries, s.clock, now);
    WellFormedLater(s.users, s.clock, now);
    WellFormedLater(s.faqs, s.clock, now);
    WellFormedLater(s.settings, s.clock, now);
  }

  // One lemma per table: a write that replaces that table (and moves the
  // clock to `now`) keeps the store consistent as soon as the new table is
  // well formed, keeps its unique indexes, and leaves every foreign key that
  // touches it satisfied.

  lemma CountriesReplaced(s: Snapshot, t: Table<Country>, now: nat)
    requires Consistent(s) && s.clock <= now
    requires WellFormed(t, now) && UniqueBy(t.rows, CountrySlugOf)
    requires UniversityRefsOk(s.universities.rows, t.rows)
    requires ArticleRefsOk(s.articles.rows, t.rows, s.majors.rows)
    ensures Consistent(s.(countries := t, clock := now))
  {
    Later(s, now);
  }

  lemma UniversitiesReplaced(s: Snapshot, t: Table<University>, now: nat)
    requires Consistent(s) && s.clock <= now
    requires WellFormed(t, now) && UniqueBy(t.rows, UniversitySlugOf)
    requires UniversityRefsOk(t.rows, s.countries.rows)
    requires UniversityMajorRefsOk(s.universityMajors.rows, t.rows, s.majors.rows)
    ensures Consistent(s.(universities := t, clock := now))
  {
    Later(s, now);
  }

  lemma MajorsReplaced(s: Snapshot, t: Table<Major>, now: nat)
    requires Consistent(s) && s.clock <= now
    requires WellFormed(t, now) && UniqueBy(t.rows, MajorSlugOf)
    requires UniversityMajorRefsOk(s.universityMajors.rows, s.universities.rows, t.rows)
    requires ArticleRefsOk(s.articles.rows, s.countries.rows, t.rows)
    ensures Consistent(s.(majors := t, clock := now))
  {
    Later(s, now);
  }

  lemma UniversityMajorsReplaced(s: Snapshot, t: Table<UniversityMajor>, now: nat)
    requires Consistent(s) && s.clock <= now
    requires WellFormed(t, now) && UniqueBy(t.rows, PairOf)
    requires UniversityMajorRefsOk(t.rows, s.universities.rows, s.majors.rows)
    requires TuitionFits(t.rows)
    ensures Consistent(s.(universityMajors := t, clock := now))
  {
    Later(s, now);
  }

  lemma ArticlesReplaced(s: Snapshot, t: Table<Article>, now: nat)
    requires Consistent(s) && s.clock <= now
    requires WellFormed(t, now) && UniqueBy(t.rows, ArticleSlugOf)
    requires ArticleRefsOk(t.rows, s.countries.rows, s.majors.rows)
    ensures Consistent(s.(articles := t, clock := now))
  {
    Later(s, now);
  }

  lemma InquiriesReplaced(s: Snapshot, t: Table<StudentInquiry>, now: nat)
    requires Consistent(s) && s.clock <= now && WellFormed(t, now)
    ensures Consistent(s.(inquiries := t, clock := now))
  {
    Later(s, now);
  }

  lemma UsersReplaced(s: Snapshot, t: Table<User>, now: nat)
    requires Consistent(s) && s.clock <= now && WellFormed(t, now)
    requires UniqueBy(t.rows, UsernameOf) && UniqueBy(t.rows, UserEmailOf)
    ensures Consistent(s.(users := t, clock := now))
  {
    Later(s, now);
  }

  lemma FaqsReplaced(s: Snapshot, t: Table<Faq>, now: nat)
    requires Consistent(s) && s.clock <= now && WellFormed(t, now)
    ensures Consistent(s.(faqs := t, clock := now))
  {
    Later(s, now);
  }

  lemma SettingsReplaced(s: Snapshot, t: Table<Setting>, now: nat)
    requires Consistent(s) && s.clock <= now && WellFormed(t, now)
    requires UniqueBy(t.rows, SettingKeyOf)
    ensures Consistent(s.(settings := t, clock := now))
  {
    Later(s, now);
  }

  /** A freshly migrated database: every table empty, every serial at 1. */
  function EmptySnapshot(): (s: Snapshot)
    ensures Consistent(s)
  {
    Snapshot(EmptyTable(), EmptyTable(), EmptyTable(), EmptyTable(), EmptyTable(),
             EmptyTable(), EmptyTable(), EmptyTable(), EmptyTable(), 0)
  }

  class Db {
    var countries: Table<Country>
    var universities: Table<University>
    var majors: Table<Major>
    var universityMajors: Table<UniversityMajor>
    var articles: Table<Article>
    var inquiries: Table<StudentInquiry>
    var users: Table<User>
    var faqs: Table<Faq>
    var settings: Table<Setting>
    /** The latest instant handed out; every timestamp in the store is at most this. */
    var clock: nat

    function Contents(): Snapshot
      reads this
    {
      Snapshot(countries, universities, majors, universityMajors, articles,
               inquiries, users, faqs, settings, clock)
    }

    /** The store invariant holds of the current contents. (Stated as one
        boolean fact, `== true`, so that the verifier checks it as a whole
        against the per-table lemmas instead of conjunct by conjunct.) */
    predicate Valid()
      reads this
    {
      Consistent(Contents()) == true
    }

    /** A freshly migrated, empty database. */
    constructor ()
      ensures Valid()
      ensures Contents() == EmptySnapshot()
    {
      countries, universities, majors := EmptyTable(), EmptyTable(), EmptyTable();
      universityMajors, articles, inquiries := EmptyTable(), EmptyTable(), EmptyTable();
      users, faqs, settings := EmptyTable(), EmptyTable(), EmptyTable();
      clock := 0;
      new;
      assert Contents() == EmptySnapshot();
    }
  }
}
