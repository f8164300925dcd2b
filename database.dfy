/** The two tables of the blog and the queries the admin pages run on them. The PDO
    wrapper the pages call (`fetchOne`, `fetchAll`, `insert`, `update`, `delete`,
    `count`) is not part of this model; each call it serves becomes an operation on a
    map from id to row. Name comparison is exact string equality: the collation of the
    real table is not modelled. */
module Database {
  import opened Php

  /** A row of `articles`. `created_at` is an opaque, ordered timestamp. */
  datatype Article = Article(
    title: string,
    content: string,
    image: Option<string>,
    categoryId: Option<int>,
    createdAt: int)

  /** A row of `categories`. */
  datatype Category = Category(name: string, description: string, createdAt: int)

  type Articles = map<int, Article>
  type Categories = map<int, Category>

  /** `SELECT id FROM categories WHERE name = ?`, with `AND id != ?` when `except` is
      given: does some (other) row carry this exact name? */
  predicate NameTaken(categories: Categories, name: string, except: Option<int>) {
    exists id :: id in categories && categories[id].name == name && Some(id) != except
  }

  /** No two categories share a name. */
  predicate UniqueNames(categories: Categories) {
    forall i, j :: i in categories && j in categories && categories[i].name == categories[j].name ==> i == j
  }

  /** Every article's `category_id` names an existing category. */
  predicate ReferencesExist(articles: Articles, categories: Categories) {
    forall k :: k in articles && articles[k].categoryId.Some? ==> articles[k].categoryId.value in categories
  }

  /** The ids of the articles whose `category_id` is `id`. */
  function ArticlesIn(articles: Articles, id: int): set<int> {
    set k | k in articles && articles[k].categoryId == Some(id)
  }

  /** `count('articles', 'category_id = ?', [id])`. */
  function CountArticlesIn(articles: Articles, id: int): (count: nat)
    ensures count == |ArticlesIn(articles, id)|
    ensures count == 0 <==> forall k :: k in articles ==> articles[k].categoryId != Some(id)
  {
    var ids := ArticlesIn(articles, id);
    if exists k :: k in articles && articles[k].categoryId == Some(id) then
      var k :| k in articles && articles[k].categoryId == Some(id);
      assert k in ids;
      |ids|
    else
      assert ids == {};
      |ids|
  }

  /** `update('articles', ['category_id' => null], 'category_id = ?', [id])`. */
  function ClearCategory(articles: Articles, id: int): (r: Articles)
    ensures r.Keys == articles.Keys
    ensures ArticlesIn(r, id) == {}
    ensures forall c :: c != id ==> ArticlesIn(r, c) == ArticlesIn(articles, c)
    ensures forall k :: k in articles ==>
      r[k].categoryId == (if articles[k].categoryId == Some(id) then None else articles[k].categoryId) &&
      r[k] == articles[k].(categoryId := r[k].categoryId)
  {
    map k | k in articles ::
      if articles[k].categoryId == Some(id) then articles[k].(categoryId := None) else articles[k]
  }

  /** With no article in the category, clearing it changes nothing; this is why the
      handler may skip the update when the count is zero. */
  lemma ClearCategoryUnused(articles: Articles, id: int)
    requires CountArticlesIn(articles, id) == 0
    ensures ClearCategory(articles, id) == articles
  {
    assert ArticlesIn(articles, id) == {};
    forall k | k in articles
      ensures articles[k].categoryId != Some(id)
    {
      assert k !in ArticlesIn(articles, id);
    }
  }

  /** Clearing the references to a category and then removing it keeps every article's
      category reference valid. */
  lemma ClearThenRemoveKeepsReferences(articles: Articles, categories: Categories, id: int)
    requires ReferencesExist(articles, categories)
    ensures ReferencesExist(ClearCategory(articles, id), categories - {id})
  {
  }

  /** A name no row carries stays unique when a new row gets it. */
  lemma InsertKeepsUniqueNames(categories: Categories, id: int, row: Category)
    requires UniqueNames(categories) && id !in categories
    requires !NameTaken(categories, row.name, None)
    ensures UniqueNames(categories[id := row])
  {
    var updated := categories[id := row];
    forall i, j | i in updated && j in updated && updated[i].name == updated[j].name
      ensures i == j
    {
    }
  }

  /** A name no other row carries stays unique when written to an existing row. */
  lemma RenameKeepsUniqueNames(categories: Categories, id: int, name: string, description: string)
    requires UniqueNames(categories) && id in categories
    requires !NameTaken(categories, name, Some(id))
    ensures UniqueNames(categories[id := categories[id].(name := name, description := description)])
  {
    var updated := categories[id := categories[id].(name := name, description := description)];
    forall i, j | i in updated && j in updated && updated[i].name == updated[j].name
      ensures i == j
    {
    }
  }

  // ---------------------------------------------------------------- joined rows

  /** The category a LEFT JOIN found for an article: `c.id` and `c.name`. */
  datatype CategoryRef = CategoryRef(id: int, name: string)

  /** A row of `SELECT a.*, c.name AS category_name FROM articles a
      LEFT JOIN categories c ON a.category_id = c.id`. */
  datatype ArticleRow = ArticleRow(id: int, article: Article, category: Option<CategoryRef>)

  function JoinArticle(articles: Articles, categories: Categories, id: int): (r: ArticleRow)
    requires id in articles
    ensures r.id == id && r.article == articles[id]
    ensures r.category.Some? <==> articles[id].categoryId.Some? && articles[id].categoryId.value in categories
    ensures r.category.Some? ==>
      r.category.value.id == articles[id].categoryId.value &&
      r.category.value.name == categories[r.category.value.id].name
  {
    var a := articles[id];
    if a.categoryId.Some? && a.categoryId.value in categories then
      ArticleRow(id, a, Some(CategoryRef(a.categoryId.value, categories[a.categoryId.value].name)))
    else
      ArticleRow(id, a, None)
  }

  /** A row of `SELECT c.*, COUNT(a.id) AS article_count FROM categories c
      LEFT JOIN articles a ON c.id = a.category_id GROUP BY c.id`. */
  datatype CategoryRow = CategoryRow(id: int, category: Category, articleCount: nat)

  // ---------------------------------------------------------------- ORDER BY created_at DESC

  predicate Distinct(ids: seq<int>) {
    forall i, j :: 0 <= i < j < |ids| ==> ids[i] != ids[j]
  }

  predicate AllIn(ids: seq<int>, stamps: map<int, int>) {
    forall i :: 0 <= i < |ids| ==> ids[i] in stamps
  }

  /** Newest first: the timestamps never increase along the sequence. */
  predicate NewestFirst(ids: seq<int>, stamps: map<int, int>)
    requires AllIn(ids, stamps)
  {
    forall i, j :: 0 <= i < j < |ids| ==> stamps[ids[i]] >= stamps[ids[j]]
  }

  /** The head of a newest-first list is at least as new as every later id, and in a
      list without repeats it does not occur again. */
  lemma HeadOfNewestFirst(ids: seq<int>, stamps: map<int, int>)
    requires ids != [] && AllIn(ids, stamps) && NewestFirst(ids, stamps)
    ensures forall x :: x in ids[1..] ==> stamps[ids[0]] >= stamps[x]
    ensures Distinct(ids) ==> ids[0] !in ids[1..]
  {
    forall x | x in ids[1..]
      ensures stamps[ids[0]] >= stamps[x]
    {
      var m :| 0 <= m < |ids| - 1 && ids[1..][m] == x;
      assert ids[m + 1] == x;
    }
    if Distinct(ids) {
      forall m | 0 <= m < |ids| - 1
        ensures ids[1..][m] != ids[0]
      {
        assert ids[1..][m] == ids[m + 1];
      }
    }
  }

  /** An id at least as new as every id of a newest-first list can go in front of it. */
  lemma ConsNewest(h: int, rest: seq<int>, stamps: map<int, int>)
    requires h in stamps && AllIn(rest, stamps) && NewestFirst(rest, stamps)
    requires forall x :: x in rest ==> stamps[h] >= stamps[x]
    ensures AllIn([h] + rest, stamps) && NewestFirst([h] + rest, stamps)
    ensures Distinct(rest) && h !in rest ==> Distinct([h] + rest)
  {
    var r := [h] + rest;
    assert forall i :: 0 < i < |r| ==> r[i] == rest[i - 1];
    assert AllIn(r, stamps);
    forall i, j | 0 <= i < j < |r|
      ensures stamps[r[i]] >= stamps[r[j]]
      ensures Distinct(rest) && h !in rest ==> r[i] != r[j]
    {
      assert rest[j - 1] in rest;
    }
  }

  /** Puts `k` in front of the first id that is not newer than it. */
  function InsertNewest(ids: seq<int>, k: int, stamps: map<int, int>): (r: seq<int>)
    requires k in stamps && AllIn(ids, stamps) && NewestFirst(ids, stamps)
    ensures |r| == |ids| + 1
    ensures forall x :: x in r <==> x == k || x in ids
    ensures AllIn(r, stamps) && NewestFirst(r, stamps)
    ensures Distinct(ids) && k !in ids ==> Distinct(r)
  {
    if ids == [] || stamps[k] >= stamps[ids[0]] then [k] + ids
    else
      var rest := InsertNewest(ids[1..], k, stamps);
      HeadOfNewestFirst(ids, stamps);
      assert ids == [ids[0]] + ids[1..];
      assert Distinct(ids) ==> Distinct(ids[1..]) by {
        if Distinct(ids) {
          forall i, j | 0 <= i < j < |ids| - 1
            ensures ids[1..][i] != ids[1..][j]
          {
            assert ids[1..][i] == ids[i + 1] && ids[1..][j] == ids[j + 1];
          }
        }
      }
      ConsNewest(ids[0], rest, stamps);
      [ids[0]] + rest
  }

  /** The ids of `stamps`, each once, newest first. Rows with equal timestamps come out
      in an unspecified order, as SQL leaves them. */
  method NewestFirstIds(stamps: map<int, int>) returns (ids: seq<int>)
    ensures |ids| == |stamps| && Distinct(ids)
    ensures AllIn(ids, stamps) && NewestFirst(ids, stamps)
    ensures forall k :: k in stamps ==> k in ids
  {
    ids := [];
    var rest := stamps.Keys;
    while |rest| > 0
      invariant rest <= stamps.Keys
      invariant AllIn(ids, stamps) && NewestFirst(ids, stamps) && Distinct(ids)
      invariant forall x :: x in ids ==> x !in rest
      invariant forall k :: k in stamps ==> k in rest || k in ids
      invariant |ids| + |rest| == |stamps.Keys|
      decreases |rest|
    {
      var k := Pick(rest);
      ids := InsertNewest(ids, k, stamps);
      rest := rest - {k};
    }
  }

  /** Some element of a non-empty set (which one is left open). */
  method Pick<T>(s: set<T>) returns (x: T)
    requires |s| > 0
    ensures x in s
  {
    x :| x in s;
  }

  /** The result of the newest-first article list query: every article exactly once,
      joined with its category, and no row newer than the one before it. */
  predicate IsArticleListing(articles: Articles, categories: Categories, rows: seq<ArticleRow>) {
    && |rows| == |articles|
    && (forall i :: 0 <= i < |rows| ==> rows[i].id in articles && rows[i] == JoinArticle(articles, categories, rows[i].id))
    && (forall id :: id in articles ==> exists i :: 0 <= i < |rows| && rows[i].id == id)
    && (forall i, j :: 0 <= i < j < |rows| ==> rows[i].id != rows[j].id)
    && (forall i, j :: 0 <= i < j < |rows| ==> rows[i].article.createdAt >= rows[j].article.createdAt)
  }

  /** `fetchAll` of the article list query, ordered by `a.created_at DESC`. */
  method ListArticles(articles: Articles, categories: Categories) returns (rows: seq<ArticleRow>)
    ensures IsArticleListing(articles, categories, rows)
  {
    var stamps := map k | k in articles :: articles[k].createdAt;
    var ids := NewestFirstIds(stamps);
    rows := seq(|ids|, i requires 0 <= i < |ids| => JoinArticle(articles, categories, ids[i]));
    ArticleRowsListing(articles, categories, stamps, ids, rows);
  }

  lemma ArticleRowsListing(articles: Articles, categories: Categories, stamps: map<int, int>, ids: seq<int>, rows: seq<ArticleRow>)
    requires stamps == map k | k in articles :: articles[k].createdAt
    requires |ids| == |stamps| && Distinct(ids) && AllIn(ids, stamps) && NewestFirst(ids, stamps)
    requires forall k :: k in stamps ==> k in ids
    requires |rows| == |ids| && forall i :: 0 <= i < |ids| ==> rows[i] == JoinArticle(articles, categories, ids[i])
    ensures IsArticleListing(articles, categories, rows)
  {
    assert stamps.Keys == articles.Keys;
    forall i | 0 <= i < |rows|
      ensures rows[i].id in articles && rows[i] == JoinArticle(articles, categories, rows[i].id)
    {
      assert rows[i].id == ids[i] && ids[i] in stamps;
    }
    forall i, j | 0 <= i < j < |rows|
      ensures rows[i].id != rows[j].id && rows[i].article.createdAt >= rows[j].article.createdAt
    {
      assert rows[i].id == ids[i] && rows[j].id == ids[j];
      assert stamps[ids[i]] >= stamps[ids[j]];
    }
    forall id | id in articles
      ensures exists i :: 0 <= i < |rows| && rows[i].id == id
    {
      var i :| 0 <= i < |ids| && ids[i] == id;
      assert rows[i].id == id;
    }
  }

  /** The result of the category list query: every category exactly once with the number
      of articles that reference it, newest first. */
  predicate IsCategoryListing(articles: Articles, categories: Categories, rows: seq<CategoryRow>) {
    && |rows| == |categories|
    && (forall i :: 0 <= i < |rows| ==>
          rows[i].id in categories && rows[i].category == categories[rows[i].id] &&
          rows[i].articleCount == CountArticlesIn(articles, rows[i].id))
    && (forall id :: id in categories ==> exists i :: 0 <= i < |rows| && rows[i].id == id)
    && (forall i, j :: 0 <= i < j < |rows| ==> rows[i].id != rows[j].id)
    && (forall i, j :: 0 <= i < j < |rows| ==> rows[i].category.createdAt >= rows[j].category.createdAt)
  }

  /** `fetchAll` of the category list query with its per-category article count,
      ordered by `c.created_at DESC`. */
  method ListCategories(articles: Articles, categories: Categories) returns (rows: seq<CategoryRow>)
    ensures IsCategoryListing(articles, categories, rows)
  {
    var stamps := map k | k in categories :: categories[k].createdAt;
    var ids := NewestFirstIds(stamps);
    rows := seq(|ids|, i requires 0 <= i < |ids| =>
      CategoryRow(ids[i], categories[ids[i]], CountArticlesIn(articles, ids[i])));
    CategoryRowsListing(articles, categories, stamps, ids, rows);
  }

  lemma CategoryRowsListing(articles: Articles, categories: Categories, stamps: map<int, int>, ids: seq<int>, rows: seq<CategoryRow>)
    requires stamps == map k | k in categories :: categories[k].createdAt
    requires |ids| == |stamps| && Distinct(ids) && AllIn(ids, stamps) && NewestFirst(ids, stamps)
    requires forall k :: k in stamps ==> k in ids
    requires |rows| == |ids|
    requires forall i :: 0 <= i < |ids| ==> rows[i] == CategoryRow(ids[i], categories[ids[i]], CountArticlesIn(articles, ids[i]))
    ensures IsCategoryListing(articles, categories, rows)
  {
    assert stamps.Keys == categories.Keys;
    forall i | 0 <= i < |rows|
      ensures rows[i].id in categories && rows[i].category == categories[rows[i].id]
      ensures rows[i].articleCount == CountArticlesIn(articles, rows[i].id)
    {
      assert rows[i].id == ids[i] && ids[i] in stamps;
    }
    forall i, j | 0 <= i < j < |rows|
      ensures rows[i].id != rows[j].id && rows[i].category.createdAt >= rows[j].category.createdAt
    {
      assert rows[i].id == ids[i] && rows[j].id == ids[j];
      assert stamps[ids[i]] >= stamps[ids[j]];
    }
    forall id | id in categories
      ensures exists i :: 0 <= i < |rows| && rows[i].id == id
    {
      var i :| 0 <= i < |ids| && ids[i] == id;
      assert rows[i].id == id;
    }
  }

  // ---------------------------------------------------------------- the stored tables

  /** The database the pages share. `nextCategoryId` is the AUTO_INCREMENT counter of
      `categories`. */
  class Database {
    var articles: Articles
    var categories: Categories
    var nextCategoryId: int

    /** Category ids come from the counter; the handlers keep names unique and every
        article's category reference valid. */
    ghost predicate Valid()
      reads this
    {
      && 1 <= nextCategoryId
      && (forall id :: id in categories ==> 1 <= id < nextCategoryId)
      && UniqueNames(categories)
      && ReferencesExist(articles, categories)
    }

    constructor ()
      ensures Valid() && articles == map[] && categories == map[]
    {
      articles := map[];
      categories := map[];
      nextCategoryId := 1;
    }

    /** `insert('categories', ...)`: the row gets the next id. */
    method InsertCategory(row: Category) returns (id: int)
      requires Valid()
      modifies this
      ensures id == old(nextCategoryId) && id !in old(categories) && 1 <= id
      ensures categories == old(categories)[id := row] && nextCategoryId == id + 1
      ensures articles == old(articles)
      ensures !NameTaken(old(categories), row.name, None) ==> Valid()
    {
      if !NameTaken(categories, row.name, None) {
        InsertKeepsUniqueNames(categories, nextCategoryId, row);
      }
      id := nextCategoryId;
      categories := categories[id := row];
      nextCategoryId := nextCategoryId + 1;
    }

    /** `update('categories', [name, description], 'id = ?', [id])`: no row has that id,
        no change. */
    method UpdateCategory(id: int, name: string, description: string)
      modifies this
      ensures categories == if id in old(categories)
        then old(categories)[id := old(categories)[id].(name := name, description := description)]
        else old(categories)
      ensures articles == old(articles) && nextCategoryId == old(nextCategoryId)
      ensures old(Valid()) && !NameTaken(old(categories), name, Some(id)) ==> Valid()
    {
      if id in categories {
        if Valid() && !NameTaken(categories, name, Some(id)) {
          RenameKeepsUniqueNames(categories, id, name, description);
        }
        categories := categories[id := categories[id].(name := name, description := description)];
      }
    }

    /** `update('articles', ['category_id' => null], 'category_id = ?', [id])`. */
    method ClearCategoryReferences(id: int)
      modifies this
      ensures articles == ClearCategory(old(articles), id)
      ensures categories == old(categories) && nextCategoryId == old(nextCategoryId)
      ensures old(Valid()) ==> Valid()
    {
      articles := ClearCategory(articles, id);
    }

    /** `delete('categories', 'id = ?', [id])`. */
    method DeleteCategory(id: int)
      modifies this
      ensures categories == old(categories) - {id}
      ensures articles == old(articles) && nextCategoryId == old(nextCategoryId)
      ensures old(Valid()) && ArticlesIn(old(articles), id) == {} ==> Valid()
    {
      if Valid() && ArticlesIn(articles, id) == {} {
        assert ClearCategory(articles, id) == articles by {
          ClearCategoryUnused(articles, id);
        }
        ClearThenRemoveKeepsReferences(articles, categories, id);
      }
      categories := categories - {id};
    }

    /** `update('articles', [title, content, category_id, image], 'id = ?', [id])`. */
    method UpdateArticle(id: int, title: string, content: string, categoryId: Option<int>, image: Option<string>)
      modifies this
      ensures articles == if id in old(articles)
        then old(articles)[id := old(articles)[id].(title := title, content := content, categoryId := categoryId, image := image)]
        else old(articles)
      ensures categories == old(categories) && nextCategoryId == old(nextCategoryId)
      ensures old(Valid()) && (categoryId.Some? ==> categoryId.value in categories) ==> Valid()
    {
      if id in articles {
        articles := articles[id := articles[id].(title := title, content := content, categoryId := categoryId, image := image)];
      }
    }

    /** `delete('articles', 'id = ?', [id])`. */
    method DeleteArticle(id: int)
      modifies this
      ensures articles == old(articles) - {id}
      ensures categories == old(categories) && nextCategoryId == old(nextCategoryId)
    {
      articles := articles - {id};
    }
  }
}
