/** The public article feed (admin/api/get_articles.php): every article, newest first,
    projected to a JSON record, inside a `{status, count, articles}` envelope. */
module FeedApi {
  import opened Php
  import opened Config
  import opened Database

  /** `category` of a feed record: `id` is null when the join found no category. */
  datatype FeedCategory = FeedCategory(id: Option<int>, name: string)

  /** One record of `articles`. `formatted_date` is not modelled. */
  datatype FeedArticle = FeedArticle(
    id: int,
    title: string,
    content: string,
    shortDescription: string,
    image: Option<string>,
    category: FeedCategory,
    createdAt: int)

  /** The body: success with the count and records, or HTTP 500 with the fixed message and
      the exception text. */
  datatype FeedResponse =
    | FeedOk(count: nat, articles: seq<FeedArticle>)
    | FeedError(code: int, message: string, error: string)

  /** `mb_substr($s, 0, $n)`: the first `n` characters. */
  function Prefix(s: string, n: nat): (r: string)
    ensures |r| == if |s| <= n then |s| else n
    ensures r == s[..|r|]
  {
    if |s| <= n then s else s[..n]
  }

  /** The public URL of a stored image. */
  function ImageUrl(name: string): (url: string)
    ensures |SiteUrl + UploadUrl| <= |url| && url[..|SiteUrl + UploadUrl|] == SiteUrl + UploadUrl
    ensures EndsWith(url, name)
  {
    SiteUrl + UploadUrl + name
  }

  /** The projection of one row of the list query. */
  function Project(row: ArticleRow): (r: FeedArticle)
    ensures r.id == row.id && r.title == row.article.title && r.content == row.article.content
    ensures r.createdAt == row.article.createdAt
    ensures var stripped := StripTags(row.article.content);
      && |r.shortDescription| == |Prefix(stripped, 100)| + 3
      && EndsWith(r.shortDescription, "...")
      && r.shortDescription[..|r.shortDescription| - 3] == stripped[..|r.shortDescription| - 3]
    ensures r.image.None? <==> !IsTruthy(row.article.image)
    ensures r.image.Some? ==>
      && |r.image.value| == |SiteUrl + UploadUrl| + |row.article.image.value|
      && r.image.value[..|SiteUrl + UploadUrl|] == SiteUrl + UploadUrl
      && r.image.value[|SiteUrl + UploadUrl|..] == row.article.image.value
    ensures r.category.id.None? <==> row.category.None? || row.category.value.id == 0
    ensures r.category.id.Some? ==> r.category.id.value == row.category.value.id
    ensures r.category.name == if row.category.Some? then row.category.value.name else "Uncategorized"
  {
    var short := Prefix(StripTags(row.article.content), 100) + "...";
    var image := if IsTruthy(row.article.image) then Some(ImageUrl(row.article.image.value)) else None;
    var categoryId := if row.category.Some? && row.category.value.id != 0 then Some(row.category.value.id) else None;
    var categoryName := if row.category.Some? then row.category.value.name else "Uncategorized";
    FeedArticle(row.id, row.article.title, row.article.content, short, image,
                FeedCategory(categoryId, categoryName), row.article.createdAt)
  }

  /** Even a short text gets the "...": "Hi" becomes "Hi...". */
  lemma ShortTextStillSuffixed(row: ArticleRow)
    requires row.article.content == "Hi"
    ensures Project(row).shortDescription == "Hi..."
  {
    StripTagsPlainText("Hi");
  }

  /** The `articles` array: one projected record per row of the newest-first listing. */
  predicate IsFeed(articles: Articles, categories: Categories, feed: seq<FeedArticle>) {
    && |feed| == |articles|
    && (forall i :: 0 <= i < |feed| ==> feed[i].id in articles && feed[i] == Project(JoinArticle(articles, categories, feed[i].id)))
    && (forall id :: id in articles ==> exists i :: 0 <= i < |feed| && feed[i].id == id)
    && (forall i, j :: 0 <= i < j < |feed| ==> feed[i].id != feed[j].id)
    && (forall i, j :: 0 <= i < j < |feed| ==> feed[i].createdAt >= feed[j].createdAt)
  }

  /** The endpoint. `connected` is `isset($db)`; `fault` is the exception the query
      throws, if any. */
  method GetArticles(db: Database, connected: bool, fault: Option<string>) returns (r: FeedResponse)
    ensures r.FeedOk? <==> connected && fault.None?
    ensures r.FeedOk? ==> r.count == |r.articles| && IsFeed(db.articles, db.categories, r.articles)
    ensures r.FeedError? ==> r.code == 500 && r.message == "Failed to fetch articles"
    ensures !connected ==> r == FeedError(500, "Failed to fetch articles", "Database connection not available")
    ensures connected && fault.Some? ==> r == FeedError(500, "Failed to fetch articles", fault.value)
  {
    if !connected {
      return FeedError(500, "Failed to fetch articles", "Database connection not available");
    }
    if fault.Some? {
      return FeedError(500, "Failed to fetch articles", fault.value);
    }
    var rows := ListArticles(db.articles, db.categories);
    var formatted: seq<FeedArticle> := [];
    for i := 0 to |rows|
      invariant |formatted| == i
      invariant forall j :: 0 <= j < i ==> formatted[j] == Project(rows[j])
    {
      formatted := formatted + [Project(rows[i])];
    }
    FeedOfListing(db.articles, db.categories, rows, formatted);
    return FeedOk(|formatted|, formatted);
  }

  /** Projecting every row of the listing gives the feed. */
  lemma FeedOfListing(articles: Articles, categories: Categories, rows: seq<ArticleRow>, feed: seq<FeedArticle>)
    requires IsArticleListing(articles, categories, rows)
    requires |feed| == |rows| && forall i :: 0 <= i < |rows| ==> feed[i] == Project(rows[i])
    ensures IsFeed(articles, categories, feed)
  {
    forall id | id in articles
      ensures exists i :: 0 <= i < |feed| && feed[i].id == id
    {
      var i :| 0 <= i < |rows| && rows[i].id == id;
      assert feed[i].id == id;
    }
  }
}
