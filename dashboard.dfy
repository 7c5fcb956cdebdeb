/** The admin dashboard: entity totals, the inquiries created since the start
    of the day, inquiry counts grouped by status and by language, and the ten
    newest inquiries — all read from one state of the store. */
module Dashboard {
  import opened Schema
  import opened Tables
  import opened DbSchema
  import opened Query
  import opened Store

  datatype DashboardStats = DashboardStats(
    totalCountries: nat, totalUniversities: nat, totalMajors: nat, totalArticles: nat,
    totalInquiries: nat, newInquiriesToday: nat,
    inquiriesByStatus: map<InquiryStatus, nat>,
    inquiriesByLanguage: map<LanguageCode, nat>,
    recentInquiries: seq<Row<StudentInquiry>>)

  const RecentLimit: nat := 10

  function InStatus(status: InquiryStatus): Row<StudentInquiry> -> bool
  {
    (r: Row<StudentInquiry>) => r.val.status == status
  }

  function InLanguage(language: LanguageCode): Row<StudentInquiry> -> bool
  {
    (r: Row<StudentInquiry>) => r.val.languageCode == language
  }

  function CreatedSince(dayStart: nat): Row<StudentInquiry> -> bool
  {
    (r: Row<StudentInquiry>) => r.createdAt >= dayStart
  }

  function Everything<T>(): Row<T> -> bool
  {
    (r: Row<T>) => true
  }

  /** Without a condition, counting counts every row. */
  lemma {:induction false} CountEverything<T>(rows: seq<Row<T>>)
    ensures CountWhere(rows, Everything()) == |rows|
  {
    if rows != [] {
      CountEverything(rows[1..]);
    }
  }

  /** `GROUP BY status`: each status some inquiry has, with its count; a
      status no inquiry has is absent. */
  function CountByStatus(rows: seq<Row<StudentInquiry>>): (m: map<InquiryStatus, nat>)
    ensures forall s :: s in m <==> exists x | x in rows :: x.val.status == s
    ensures forall s | s in m :: m[s] == CountWhere(rows, InStatus(s)) && m[s] > 0
  {
    var seen := set x | x in rows :: x.val.status;
    var m := map s | s in seen :: CountWhere(rows, InStatus(s));
    assert forall s | s in m :: m[s] > 0 by {
      forall s | s in m ensures m[s] > 0 {
        var x :| x in rows && x.val.status == s;
        assert x in Where(rows, InStatus(s));
      }
    }
    m
  }

  /** `GROUP BY language_code`, likewise. */
  function CountByLanguage(rows: seq<Row<StudentInquiry>>): (m: map<LanguageCode, nat>)
    ensures forall l :: l in m <==> exists x | x in rows :: x.val.languageCode == l
    ensures forall l | l in m :: m[l] == CountWhere(rows, InLanguage(l)) && m[l] > 0
  {
    var seen := set x | x in rows :: x.val.languageCode;
    var m := map l | l in seen :: CountWhere(rows, InLanguage(l));
    assert forall l | l in m :: m[l] > 0 by {
      forall l | l in m ensures m[l] > 0 {
        var x :| x in rows && x.val.languageCode == l;
        assert x in Where(rows, InLanguage(l));
      }
    }
    m
  }

  /** The sum of a count map over the given keys, an absent key counting 0. */
  function Tally<K>(m: map<K, nat>, keys: seq<K>): nat
  {
    if keys == [] then 0 else CountOf(m, keys[0]) + Tally(m, keys[1..])
  }

  /** The inquiries created at or after `dayStart`, the start of the
      current day. */
  function NewSince(rows: seq<Row<StudentInquiry>>, dayStart: nat): (n: nat)
    ensures n == CountWhere(rows, CreatedSince(dayStart))
    ensures n <= |rows|
    ensures n == 0 <==> forall x | x in rows :: x.createdAt < dayStart
  {
    var r := Where(rows, CreatedSince(dayStart));
    assert r != [] ==> r[0] in r;
    |r|
  }

  /** An inquiry appended to the table counts as new today exactly when it
      was created at or after the start of the day. */
  lemma {:induction false} NewSinceCountsCreates(rows: seq<Row<StudentInquiry>>, x: Row<StudentInquiry>, dayStart: nat)
    ensures NewSince(rows + [x], dayStart) == NewSince(rows, dayStart) + (if x.createdAt >= dayStart then 1 else 0)
  {
    WhereAppend(rows, CreatedSince(dayStart), x);
  }

  /** The ten newest inquiries, newest first: every one newer than each
      inquiry left out, and all of them when there are ten or fewer. */
  function RecentInquiries(rows: seq<Row<StudentInquiry>>): (r: seq<Row<StudentInquiry>>)
    requires Chrono(rows)
    ensures |r| == Min(RecentLimit, |rows|)
    ensures forall x | x in r :: x in rows
    ensures NewestFirstOrder(r)
    ensures forall x, y | x in r && y in rows && y !in r :: Newer(x, y)
    ensures |rows| <= RecentLimit ==> forall y | y in rows :: y in r
  {
    CountEverything(rows);
    Latest(rows, Everything(), RecentLimit)
  }

  /** The first of the recent inquiries is newer than every other inquiry. */
  lemma NewestLeads(rows: seq<Row<StudentInquiry>>)
    requires Chrono(rows) && rows != []
    ensures var r := RecentInquiries(rows);
      r != [] && forall y | y in rows && y != r[0] :: Newer(r[0], y)
  {
    var r := RecentInquiries(rows);
    forall y | y in rows && y != r[0] ensures Newer(r[0], y) {
      if y in r {
        var j :| 0 <= j < |r| && r[j] == y;
      }
    }
  }

  /** `getDashboardStats` at the instant whose day starts at `dayStart`. */
  function GetDashboardStats(s: Snapshot, dayStart: nat): (d: DashboardStats)
    requires Chrono(s.inquiries.rows)
    ensures d.totalCountries == |s.countries.rows| && d.totalUniversities == |s.universities.rows|
    ensures d.totalMajors == |s.majors.rows| && d.totalArticles == |s.articles.rows|
    ensures d.totalInquiries == |s.inquiries.rows|
    ensures d.newInquiriesToday <= d.totalInquiries
    ensures |d.recentInquiries| == Min(RecentLimit, d.totalInquiries)
    ensures d.newInquiriesToday == NewSince(s.inquiries.rows, dayStart)
    ensures d.inquiriesByStatus == CountByStatus(s.inquiries.rows)
    ensures d.inquiriesByLanguage == CountByLanguage(s.inquiries.rows)
    ensures d.recentInquiries == RecentInquiries(s.inquiries.rows)
  {
    var q := s.inquiries.rows;
    DashboardStats(|s.countries.rows|, |s.universities.rows|, |s.majors.rows|, |s.articles.rows|,
                   |q|, NewSince(q, dayStart), CountByStatus(q), CountByLanguage(q), RecentInquiries(q))
  }

  /** A count map's entry, 0 when the key is absent. */
  function CountOf<K>(m: map<K, nat>, k: K): nat
  {
    if k in m then m[k] else 0
  }

  lemma TallyOfFour<K>(m: map<K, nat>, a: K, b: K, c: K, d: K)
    ensures Tally(m, [a, b, c, d]) == CountOf(m, a) + CountOf(m, b) + CountOf(m, c) + CountOf(m, d)
  {
    assert [a, b, c, d][1..] == [b, c, d] && [b, c, d][1..] == [c, d] && [c, d][1..] == [d];
    assert Tally(m, [d]) == CountOf(m, d) + Tally(m, [d][1..]);
    assert Tally(m, [c, d]) == CountOf(m, c) + Tally(m, [d]);
    assert Tally(m, [b, c, d]) == CountOf(m, b) + Tally(m, [c, d]);
  }

  /** The status groups add up to the number of inquiries. */
  lemma StatusGroupsAddUp(rows: seq<Row<StudentInquiry>>)
    ensures Tally(CountByStatus(rows), AllInquiryStatuses) == |rows|
  {
    var m := CountByStatus(rows);
    forall st ensures CountOf(m, st) == CountWhere(rows, InStatus(st)) {
      if st !in m {
        assert forall x | x in rows :: !InStatus(st)(x);
      }
    }
    StatusesPartition(rows);
    TallyOfFour(m, New, Contacted, Completed, Archived);
  }

  /** The language groups add up to the number of inquiries. */
  lemma LanguageGroupsAddUp(rows: seq<Row<StudentInquiry>>)
    ensures Tally(CountByLanguage(rows), AllLanguageCodes) == |rows|
  {
    var m := CountByLanguage(rows);
    forall l ensures CountOf(m, l) == CountWhere(rows, InLanguage(l)) {
      if l !in m {
        assert forall x | x in rows :: !InLanguage(l)(x);
      }
    }
    LanguagesPartition(rows);
    TallyOfFour(m, Ar, En, Tr, Ms);
  }

  /** Every inquiry has exactly one of the four statuses. */
  lemma {:induction false} StatusesPartition(rows: seq<Row<StudentInquiry>>)
    ensures CountWhere(rows, InStatus(New)) + CountWhere(rows, InStatus(Contacted))
          + CountWhere(rows, InStatus(Completed)) + CountWhere(rows, InStatus(Archived)) == |rows|
  {
    if rows != [] {
      StatusesPartition(rows[1..]);
    }
  }

  /** Every inquiry has exactly one of the four languages. */
  lemma {:induction false} LanguagesPartition(rows: seq<Row<StudentInquiry>>)
    ensures CountWhere(rows, InLanguage(Ar)) + CountWhere(rows, InLanguage(En))
          + CountWhere(rows, InLanguage(Tr)) + CountWhere(rows, InLanguage(Ms)) == |rows|
  {
    if rows != [] {
      LanguagesPartition(rows[1..]);
    }
  }

  /** The figures of one dashboard agree with each other: both groupings
      add up to the total number of inquiries, and the recent list holds
      every inquiry when there are at most ten. */
  lemma DashboardAddsUp(s: Snapshot, dayStart: nat)
    requires Chrono(s.inquiries.rows)
    ensures var d := GetDashboardStats(s, dayStart);
      && Tally(d.inquiriesByStatus, AllInquiryStatuses) == d.totalInquiries
      && Tally(d.inquiriesByLanguage, AllLanguageCodes) == d.totalInquiries
      && (d.totalInquiries <= RecentLimit ==> forall x | x in s.inquiries.rows :: x in d.recentInquiries)
  {
    StatusGroupsAddUp(s.inquiries.rows);
    LanguageGroupsAddUp(s.inquiries.rows);
  }

  /** On an empty store every count is 0, both groupings are empty and there
      are no recent inquiries. */
  lemma EmptyDashboard(dayStart: nat)
    ensures GetDashboardStats(EmptySnapshot(), dayStart) ==
      DashboardStats(0, 0, 0, 0, 0, 0, map[], map[], [])
  {
    var d := GetDashboardStats(EmptySnapshot(), dayStart);
    assert d.inquiriesByStatus == map[];
    assert d.inquiriesByLanguage == map[];
  }
}
