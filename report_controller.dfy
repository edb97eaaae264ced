/**
 * The report of the administrator's report page: the articles created in a
 * window of whole days, their totals by status, their statistics grouped by
 * category and by author, and the article list, newest first.
 */
module ReportController {
  import opened Wrappers
  import opened Seqs
  import opened Entities
  import opened Store
  import opened NewsArticleRepository

  // ---------------------------------------------------------------------------
  // The date window

  const SecondsPerDay := 86400

  /** `.Date`: midnight of the day holding `t` (timestamps are seconds). */
  function DayStart(t: int): (r: int)
    ensures r <= t < r + SecondsPerDay
    ensures r % SecondsPerDay == 0
  {
    t - t % SecondsPerDay
  }

  /** The first instant of the window: midnight of the start date, one month ago by default. */
  function WindowStart(startDate: Option<int>, monthAgo: int): int {
    DayStart(startDate.GetOr(monthAgo))
  }

  /** The last instant of the window: one second before the day after the end date, today by default. */
  function WindowEnd(endDate: Option<int>, now: int): int {
    DayStart(endDate.GetOr(now)) + SecondsPerDay - 1
  }

  /**
   * A timestamp is in the window exactly when its day lies between the start
   * day and the end day, both included. The window closes at 23:59:59 of the
   * end day; with timestamps in whole seconds that is the end day's last
   * instant, so every second of the end day counts.
   */
  lemma WindowIsWholeDays(t: int, startDate: Option<int>, endDate: Option<int>, monthAgo: int, now: int)
    ensures WindowStart(startDate, monthAgo) <= t <= WindowEnd(endDate, now)
        <==> DayStart(startDate.GetOr(monthAgo)) <= DayStart(t) <= DayStart(endDate.GetOr(now))
  {
    var s := DayStart(startDate.GetOr(monthAgo));
    var e := DayStart(endDate.GetOr(now));
    var d := DayStart(t);
    DayStartMonotone(s, t);
    DayStartMonotone(t, e + SecondsPerDay - 1);
    assert DayStart(s) == s by { DayStartOfMidnight(s); }
    assert DayStart(e + SecondsPerDay - 1) == e by { DayStartOfLastSecond(e); }
    assert s <= d ==> s <= t;
    assert d <= e ==> t <= e + SecondsPerDay - 1;
  }

  lemma DayStartMonotone(a: int, b: int)
    ensures a <= b ==> DayStart(a) <= DayStart(b)
  {
    var qa, qb := a / SecondsPerDay, b / SecondsPerDay;
    assert DayStart(a) == SecondsPerDay * qa;
    assert DayStart(b) == SecondsPerDay * qb;
  }

  lemma DayStartOfMidnight(m: int)
    requires m % SecondsPerDay == 0
    ensures DayStart(m) == m
  {
  }

  lemma DayStartOfLastSecond(m: int)
    requires m % SecondsPerDay == 0
    ensures DayStart(m + SecondsPerDay - 1) == m
  {
    assert (m + SecondsPerDay - 1) % SecondsPerDay == SecondsPerDay - 1;
  }

  // ---------------------------------------------------------------------------
  // Status counts

  /** Counted as active: published. */
  predicate IsActive(a: Article) { a.status == Some(true) }

  /** Counted as inactive: unpublished or with no status at all. */
  predicate IsInactive(a: Article) { a.status == Some(false) || a.status.None? }

  /** Every article is counted exactly once, as active or as inactive. */
  lemma StatusCountsAddUp(s: seq<Article>)
    ensures CountWhere(s, IsActive) + CountWhere(s, IsInactive) == |s|
  {
    forall x | x in s ensures IsInactive(x) == !IsActive(x) {
      match x.status
      case None =>
      case Some(b) => assert b || x.status == Some(false);
    }
    CountComplement(s, IsActive, IsInactive);
  }

  // ---------------------------------------------------------------------------
  // Grouped statistics

  /** The grouping key: a nullable id with the nullable name the join yields for it. */
  type GroupKey = (Option<int>, Option<string>)

  /** One line of the category or author statistics. */
  datatype GroupStat = GroupStat(id: int, name: string, articleCount: nat, activeCount: nat, inactiveCount: nat)

  function StatCount(g: GroupStat): int { g.articleCount }

  /**
   * The statistic of one group: a missing id shows as 0 and a missing name
   * as `sentinel`; the counts are over the articles with that key.
   */
  function StatOf(s: seq<Article>, key: Article -> GroupKey, k: GroupKey, sentinel: string): (r: GroupStat)
    ensures r.id == k.0.GetOr(0) && r.name == k.1.GetOr(sentinel)
    ensures r.articleCount == CountWhere(s, KeyIs(key, k))
    ensures r.articleCount == r.activeCount + r.inactiveCount
  {
    var members := Filter(s, KeyIs(key, k));
    StatusCountsAddUp(members);
    GroupStat(k.0.GetOr(0), k.1.GetOr(sentinel), |members|,
              CountWhere(members, IsActive), CountWhere(members, IsInactive))
  }

  /** The `Select` over the groups, in the order of their keys. */
  function StatsFor(s: seq<Article>, key: Article -> GroupKey, sentinel: string, ks: seq<GroupKey>): (r: seq<GroupStat>)
    ensures |r| == |ks|
    ensures forall i | 0 <= i < |ks| :: r[i] == StatOf(s, key, ks[i], sentinel)
  {
    if |ks| == 0 then [] else [StatOf(s, key, ks[0], sentinel)] + StatsFor(s, key, sentinel, ks[1..])
  }

  /** Statistics of two lists that agree on every group count have the same total. */
  lemma {:induction false} StatsSumAgree(s: seq<Article>, t: seq<Article>, key: Article -> GroupKey,
                                         sentinel: string, ks: seq<GroupKey>)
    requires forall k | k in ks :: CountWhere(s, KeyIs(key, k)) == CountWhere(t, KeyIs(key, k))
    ensures SumBy(StatsFor(s, key, sentinel, ks), StatCount) == SumBy(StatsFor(t, key, sentinel, ks), StatCount)
  {
    if |ks| > 0 {
      var a, b := StatsFor(s, key, sentinel, ks), StatsFor(t, key, sentinel, ks);
      assert a[1..] == StatsFor(s, key, sentinel, ks[1..]);
      assert b[1..] == StatsFor(t, key, sentinel, ks[1..]);
      assert StatCount(a[0]) == StatCount(b[0]) by {
        assert ks[0] in ks;
      }
      assert forall k | k in ks[1..] :: k in ks;
      StatsSumAgree(s, t, key, sentinel, ks[1..]);
    }
  }

  /** The group counts of `GroupBy` add up to the number of articles grouped. */
  lemma {:induction false} GroupCountsAddUp(s: seq<Article>, key: Article -> GroupKey, sentinel: string)
    ensures SumBy(StatsFor(s, key, sentinel, GroupKeys(s, key)), StatCount) == |s|
    decreases |s|
  {
    if |s| > 0 {
      var k0 := key(s[0]);
      var rest := Filter(s, KeyIsNot(key, k0));
      assert !KeyIsNot(key, k0)(s[0]);
      var g := GroupKeys(rest, key);
      assert GroupKeys(s, key) == [k0] + g;
      var stats := StatsFor(s, key, sentinel, [k0] + g);
      assert stats[1..] == StatsFor(s, key, sentinel, g);
      GroupCountsAddUp(rest, key, sentinel);
      forall k | k in g ensures CountWhere(rest, KeyIs(key, k)) == CountWhere(s, KeyIs(key, k)) {
        var x :| x in rest && key(x) == k;
        assert k != k0;
        CountOfFilter(s, KeyIsNot(key, k0), KeyIs(key, k));
      }
      StatsSumAgree(rest, s, key, sentinel, g);
      CountComplement(s, KeyIs(key, k0), KeyIsNot(key, k0));
    }
  }

  /**
   * `GroupBy(key).Select(...).OrderByDescending(ArticleCount)`: one line per
   * key present, the largest groups first.
   */
  function GroupStats(s: seq<Article>, key: Article -> GroupKey, sentinel: string): (r: seq<GroupStat>)
    ensures SortedBy(r, StatCount, AtLeast)
    ensures SumBy(r, StatCount) == |s|
    ensures multiset(r) == multiset(StatsFor(s, key, sentinel, GroupKeys(s, key)))
  {
    AtLeastIsTotalPreorder();
    var stats := StatsFor(s, key, sentinel, GroupKeys(s, key));
    GroupCountsAddUp(s, key, sentinel);
    SumSort(stats, StatCount, AtLeast, StatCount);
    Sort(stats, StatCount, AtLeast)
  }

  /** Every article's group has a line in the grouped statistics. */
  lemma GroupStatsCover(s: seq<Article>, key: Article -> GroupKey, sentinel: string, a: Article)
    requires a in s
    ensures StatOf(s, key, key(a), sentinel) in GroupStats(s, key, sentinel)
  {
    var ks := GroupKeys(s, key);
    var stats := StatsFor(s, key, sentinel, ks);
    assert multiset(GroupStats(s, key, sentinel)) == multiset(stats);
    assert key(a) in ks;
  }

  /**
   * Every line of the grouped statistics is labelled after the key of some
   * article, and its active and inactive counts add up to its article count.
   */
  lemma GroupStatsLine(s: seq<Article>, key: Article -> GroupKey, sentinel: string, g: GroupStat)
    requires g in GroupStats(s, key, sentinel)
    ensures g.articleCount == g.activeCount + g.inactiveCount
    ensures exists a | a in s :: key(a).0.GetOr(0) == g.id && key(a).1.GetOr(sentinel) == g.name
  {
    var ks := GroupKeys(s, key);
    var stats := StatsFor(s, key, sentinel, ks);
    assert multiset(GroupStats(s, key, sentinel)) == multiset(stats);
    assert g in multiset(stats);
    var i :| 0 <= i < |stats| && stats[i] == g;
    assert ks[i] in ks;
    var a :| a in s && key(a) == ks[i];
  }

  /** The category grouping key: the category id and the joined category name. */
  function CategoryGroupKey(categories: seq<Category>): Article -> GroupKey {
    (a: Article) => (a.categoryId, CategoryName(a, categories))
  }

  /** The author grouping key: the creator id and the joined creator name. */
  function AuthorGroupKey(accounts: seq<Account>): Article -> GroupKey {
    (a: Article) => (a.createdById, CreatorName(a, accounts))
  }

  // ---------------------------------------------------------------------------
  // The report

  /** One line of the article list, an unset status showing as unpublished. */
  datatype ReportRow = ReportRow(
    id: string, title: Option<string>, headline: string,
    categoryName: Option<string>, createdByName: Option<string>, updatedByName: Option<string>,
    createdDate: Option<int>, modifiedDate: Option<int>, status: bool)

  /**
   * The updater's name as the report sees it. The date-range query joins the
   * category and the creator but not the updater, and nothing is loaded
   * lazily, so the updater is known only when the same query already brought
   * that account in as the creator of one of the `listed` articles.
   */
  function UpdaterName(a: Article, listed: seq<Article>, accounts: seq<Account>): (r: Option<string>)
    ensures a.updatedById.None? ==> r.None?
    ensures (forall b | b in listed :: b.createdById != a.updatedById) ==> r.None?
    ensures forall b | b in listed && a.updatedById.Some? && b.createdById == a.updatedById :: r == CreatorName(b, accounts)
  {
    if a.updatedById.Some? && exists b | b in listed :: b.createdById == a.updatedById then
      var u := Find(accounts, AccountKey, a.updatedById.value);
      if u.Some? then u.value.name else None
    else None
  }

  /** The row of `a` in the report over `listed`. */
  function RowOf(a: Article, listed: seq<Article>, categories: seq<Category>, accounts: seq<Account>): (r: ReportRow)
    ensures r.id == a.id && r.title == a.title && r.headline == a.headline
    ensures r.createdDate == a.createdDate && r.modifiedDate == a.modifiedDate
    ensures r.categoryName == CategoryName(a, categories) && r.createdByName == CreatorName(a, accounts)
    ensures r.updatedByName.Some? ==> exists b | b in listed :: b.createdById == a.updatedById
    ensures r.status <==> IsActive(a)
  {
    ReportRow(a.id, a.title, a.headline, CategoryName(a, categories), CreatorName(a, accounts),
              UpdaterName(a, listed, accounts), a.createdDate, a.modifiedDate, a.status.GetOr(false))
  }

  function RowDate(r: ReportRow): Option<int> { r.createdDate }

  /** Rows built element by element from a reordering of `s` are the rows of the articles of `s`. */
  lemma RowsCoverList(s: seq<Article>, ordered: seq<Article>, r: seq<ReportRow>,
                      categories: seq<Category>, accounts: seq<Account>)
    requires |r| == |ordered|
    requires forall x :: x in ordered <==> x in s
    requires forall i | 0 <= i < |r| :: r[i] == RowOf(ordered[i], s, categories, accounts)
    ensures forall a | a in s :: RowOf(a, s, categories, accounts) in r
    ensures forall row | row in r :: exists a | a in s :: row == RowOf(a, s, categories, accounts)
  {
    forall a | a in s ensures RowOf(a, s, categories, accounts) in r {
      var i :| 0 <= i < |ordered| && ordered[i] == a;
      assert r[i] == RowOf(a, s, categories, accounts);
    }
    forall row | row in r ensures exists a | a in s :: row == RowOf(a, s, categories, accounts) {
      var i :| 0 <= i < |r| && r[i] == row;
      assert ordered[i] in s;
    }
  }

  /** The article list: the rows of `s`, newest first. */
  function ReportRows(s: seq<Article>, categories: seq<Category>, accounts: seq<Account>): (r: seq<ReportRow>)
    ensures |r| == |s|
    ensures SortedBy(r, RowDate, LaterOrSame)
    ensures forall a | a in s :: RowOf(a, s, categories, accounts) in r
    ensures forall row | row in r :: exists a | a in s :: row == RowOf(a, s, categories, accounts)
  {
    LaterOrSameIsTotalPreorder();
    var ordered := Sort(s, CreatedDateKey, LaterOrSame);
    var r := seq(|ordered|, i requires 0 <= i < |ordered| => RowOf(ordered[i], s, categories, accounts));
    RowsCoverList(s, ordered, r, categories, accounts);
    r
  }

  datatype Report = Report(
    startDate: int, endDate: int,
    totalArticles: nat, activeArticles: nat, inactiveArticles: nat,
    categoryStatistics: seq<GroupStat>, authorStatistics: seq<GroupStat>,
    articles: seq<ReportRow>)

  /** The articles the report covers: those created in the window, newest first. */
  function ReportedArticles(articles: seq<Article>, startDate: Option<int>, endDate: Option<int>,
                            monthAgo: int, now: int): seq<Article>
  {
    ArticlesByDateRange(articles, WindowStart(startDate, monthAgo), WindowEnd(endDate, now))
  }

  /**
   * `Generate`: the report of the articles created between midnight of the
   * start date and the last second of the end date. `monthAgo` and `now`
   * stand for the clock readings the defaults are taken from.
   */
  function Generate(articles: seq<Article>, categories: seq<Category>, accounts: seq<Account>,
                    startDate: Option<int>, endDate: Option<int>, monthAgo: int, now: int): (r: Report)
    ensures r.startDate == DayStart(startDate.GetOr(monthAgo)) && r.endDate == DayStart(endDate.GetOr(now))
    ensures r.totalArticles == r.activeArticles + r.inactiveArticles
    ensures r.totalArticles == |r.articles|
    ensures SortedBy(r.categoryStatistics, StatCount, AtLeast)
    ensures SumBy(r.categoryStatistics, StatCount) == r.totalArticles
    ensures SortedBy(r.authorStatistics, StatCount, AtLeast)
    ensures SumBy(r.authorStatistics, StatCount) == r.totalArticles
    ensures SortedBy(r.articles, RowDate, LaterOrSame)
    ensures var list := ReportedArticles(articles, startDate, endDate, monthAgo, now);
      && r.activeArticles == CountWhere(list, IsActive) && r.inactiveArticles == CountWhere(list, IsInactive)
      && r.categoryStatistics == GroupStats(list, CategoryGroupKey(categories), "Uncategorized")
      && r.authorStatistics == GroupStats(list, AuthorGroupKey(accounts), "Unknown")
      && r.articles == ReportRows(list, categories, accounts)
  {
    var list := ReportedArticles(articles, startDate, endDate, monthAgo, now);
    StatusCountsAddUp(list);
    Report(DayStart(startDate.GetOr(monthAgo)), DayStart(endDate.GetOr(now)),
           |list|, CountWhere(list, IsActive), CountWhere(list, IsInactive),
           GroupStats(list, CategoryGroupKey(categories), "Uncategorized"),
           GroupStats(list, AuthorGroupKey(accounts), "Unknown"),
           ReportRows(list, categories, accounts))
  }

  /**
   * Every reported article is counted in the line of its category (or
   * "Uncategorized") and in the line of its author (or "Unknown"), and each
   * line counts exactly the reported articles with its key.
   */
  lemma ReportGroupsCover(articles: seq<Article>, categories: seq<Category>, accounts: seq<Account>,
                          startDate: Option<int>, endDate: Option<int>, monthAgo: int, now: int, a: Article)
    requires a in ReportedArticles(articles, startDate, endDate, monthAgo, now)
    ensures var r := Generate(articles, categories, accounts, startDate, endDate, monthAgo, now);
      var list := ReportedArticles(articles, startDate, endDate, monthAgo, now);
      && StatOf(list, CategoryGroupKey(categories), CategoryGroupKey(categories)(a), "Uncategorized")
           in r.categoryStatistics
      && StatOf(list, AuthorGroupKey(accounts), AuthorGroupKey(accounts)(a), "Unknown") in r.authorStatistics
  {
    var list := ReportedArticles(articles, startDate, endDate, monthAgo, now);
    GroupStatsCover(list, CategoryGroupKey(categories), "Uncategorized", a);
    GroupStatsCover(list, AuthorGroupKey(accounts), "Unknown", a);
  }

  /**
   * The article list of the report holds the row of an article exactly when
   * the article was created in the window.
   */
  lemma ReportListsWindow(articles: seq<Article>, categories: seq<Category>, accounts: seq<Account>,
                          startDate: Option<int>, endDate: Option<int>, monthAgo: int, now: int, a: Article)
    requires a in articles
    ensures var list := ReportedArticles(articles, startDate, endDate, monthAgo, now);
      var row := RowOf(a, list, categories, accounts);
      InWindow(a, WindowStart(startDate, monthAgo), WindowEnd(endDate, now)) <==> row in ReportRows(list, categories, accounts)
  {
    var list := ReportedArticles(articles, startDate, endDate, monthAgo, now);
    var rows := ReportRows(list, categories, accounts);
    if RowOf(a, list, categories, accounts) in rows {
      var b :| b in list && RowOf(a, list, categories, accounts) == RowOf(b, list, categories, accounts);
      assert a.createdDate == b.createdDate;
    }
  }
}
