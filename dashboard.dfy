/** The dashboard (admin/index.php): the two totals, the five most recent articles with
    their category badges, and the flash message. */
module DashboardPage {
  import opened Php
  import opened Database
  import opened Functions
  import ArticlesPage

  /** How many recent articles the dashboard lists (`LIMIT 5`). */
  const RecentLimit: nat := 5

  /** The ids of a list of rows. */
  function Ids(rows: seq<ArticleRow>): set<int> {
    set i | 0 <= i < |rows| :: rows[i].id
  }

  /** The `LIMIT 5` list: as many rows as there are articles, at most five, each the
      joined article, newest first, and no article left out is newer than one listed. */
  predicate IsRecent(articles: Articles, categories: Categories, recent: seq<ArticleRow>) {
    && |recent| == (if |articles| < RecentLimit then |articles| else RecentLimit)
    && (forall i :: 0 <= i < |recent| ==> recent[i].id in articles && recent[i] == JoinArticle(articles, categories, recent[i].id))
    && (forall i, j :: 0 <= i < j < |recent| ==> recent[i].id != recent[j].id)
    && (forall i, j :: 0 <= i < j < |recent| ==> recent[i].article.createdAt >= recent[j].article.createdAt)
    && (forall id, i :: id in articles && id !in Ids(recent) && 0 <= i < |recent| ==>
          articles[id].createdAt <= recent[i].article.createdAt)
  }

  /** The first five rows of the newest-first list are the recent list. */
  lemma RecentOfListing(articles: Articles, categories: Categories, rows: seq<ArticleRow>)
    requires IsArticleListing(articles, categories, rows)
    ensures var k := if |rows| < RecentLimit then |rows| else RecentLimit;
      IsRecent(articles, categories, rows[..k])
  {
    var k := if |rows| < RecentLimit then |rows| else RecentLimit;
    PrefixRows(articles, categories, rows, k);
    PrefixOrder(rows, k);
    OmittedNotNewer(articles, rows, k);
  }

  lemma PrefixRows(articles: Articles, categories: Categories, rows: seq<ArticleRow>, k: nat)
    requires k <= |rows|
    requires forall i :: 0 <= i < |rows| ==> rows[i].id in articles && rows[i] == JoinArticle(articles, categories, rows[i].id)
    ensures forall i :: 0 <= i < |rows| ==> rows[i].article == articles[rows[i].id]
    ensures forall i :: 0 <= i < k ==> rows[..k][i].id in articles && rows[..k][i] == JoinArticle(articles, categories, rows[..k][i].id)
  {
    forall i | 0 <= i < k
      ensures rows[..k][i].id in articles && rows[..k][i] == JoinArticle(articles, categories, rows[..k][i].id)
    {
      assert rows[..k][i] == rows[i];
    }
  }

  lemma PrefixOrder(rows: seq<ArticleRow>, k: nat)
    requires k <= |rows|
    requires forall i, j :: 0 <= i < j < |rows| ==> rows[i].id != rows[j].id
    requires forall i, j :: 0 <= i < j < |rows| ==> rows[i].article.createdAt >= rows[j].article.createdAt
    ensures forall i, j :: 0 <= i < j < k ==> rows[..k][i].id != rows[..k][j].id
    ensures forall i, j :: 0 <= i < j < k ==> rows[..k][i].article.createdAt >= rows[..k][j].article.createdAt
  {
    forall i, j | 0 <= i < j < k
      ensures rows[..k][i].id != rows[..k][j].id && rows[..k][i].article.createdAt >= rows[..k][j].article.createdAt
    {
      assert rows[..k][i] == rows[i] && rows[..k][j] == rows[j];
    }
  }

  /** In a newest-first list that covers every article, an article outside the first `k`
      rows is no newer than any of them. */
  lemma OmittedNotNewer(articles: Articles, rows: seq<ArticleRow>, k: nat)
    requires k <= |rows|
    requires forall i :: 0 <= i < |rows| ==> rows[i].id in articles && rows[i].article == articles[rows[i].id]
    requires forall id :: id in articles ==> exists i :: 0 <= i < |rows| && rows[i].id == id
    requires forall i, j :: 0 <= i < j < |rows| ==> rows[i].article.createdAt >= rows[j].article.createdAt
    ensures forall id, i :: id in articles && id !in Ids(rows[..k]) && 0 <= i < k ==>
      articles[id].createdAt <= rows[..k][i].article.createdAt
  {
    var recent := rows[..k];
    assert forall q :: 0 <= q < k ==> recent[q].id in Ids(recent);
    forall id, i | id in articles && id !in Ids(recent) && 0 <= i < k
      ensures articles[id].createdAt <= recent[i].article.createdAt
    {
      var p :| 0 <= p < |rows| && rows[p].id == id;
      assert p >= k;
      assert recent[i] == rows[i];
    }
  }

  /** What the dashboard renders. */
  datatype View = View(totalArticles: nat, totalCategories: nat, recent: seq<ArticleRow>, badges: seq<string>,
                       flash: Option<Flash>)

  datatype Response = Sent(reply: Reply) | Shown(view: View)

  /** One request to the dashboard: the login guard, the counts, the recent list, and the
      flash message, which rendering consumes. */
  method Dashboard(db: Database, session: Session) returns (r: Response)
    modifies session
    ensures session.loggedIn == old(session.loggedIn) && session.username == old(session.username)
    ensures !old(session.IsLoggedIn()) ==> r == Sent(Redirect("login.php")) && session.flash == old(session.flash)
    ensures old(session.IsLoggedIn()) ==>
      && r.Shown?
      && r.view.totalArticles == |db.articles| && r.view.totalCategories == |db.categories|
      && IsRecent(db.articles, db.categories, r.view.recent)
      && |r.view.badges| == |r.view.recent|
      && (forall i :: 0 <= i < |r.view.recent| ==> r.view.badges[i] == ArticlesPage.CategoryLabel(r.view.recent[i].category))
      && r.view.flash == old(session.flash) && session.flash == None
  {
    var redirect := session.RequireLogin();
    if redirect.Some? {
      return Sent(redirect.value);
    }
    var totalArticles := |db.articles|;
    var totalCategories := |db.categories|;
    var rows := ListArticles(db.articles, db.categories);
    RecentOfListing(db.articles, db.categories, rows);
    var recent := rows[..if |rows| < RecentLimit then |rows| else RecentLimit];
    var badges := seq(|recent|, i requires 0 <= i < |recent| => ArticlesPage.CategoryLabel(recent[i].category));
    var flash := session.GetFlashMessage();
    return Shown(View(totalArticles, totalCategories, recent, badges, flash));
  }
}
