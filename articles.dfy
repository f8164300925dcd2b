/** The article list page (admin/articles.php): the delete handler and the joined,
    newest-first list with each row's snippet and category label. */
module ArticlesPage {
  import opened Php
  import opened Database
  import opened Functions

  /** The snippet under a title: the tag-stripped content cut to 60 bytes. */
  function Snippet(content: string): (r: seq<byte>)
    ensures |Utf8Encode(StripTags(content))| <= 60 ==> r == Utf8Encode(StripTags(content))
    ensures |Utf8Encode(StripTags(content))| > 60 ==>
      |r| == 63 && r[..60] == Utf8Encode(StripTags(content))[..60] && r[60..] == Ellipsis
  {
    TruncateText(Utf8Encode(StripTags(content)), 60)
  }

  /** On plain ASCII text (no NUL, and any '<' followed by white space) the snippet is
      the first 60 characters followed by "...". */
  lemma SnippetOfPlainText(content: string)
    requires IsAscii(content) && IsPlainText(content)
    ensures Snippet(content) == Utf8Encode(if |content| <= 60 then content else content[..60] + "...")
  {
    StripTagsPlainText(content);
    TruncateAscii(content, 60);
  }

  /** The badge of a row: `category_name ?? 'Uncategorized'`, sanitized. */
  function CategoryLabel(category: Option<CategoryRef>): (r: string)
    ensures category.Some? ==> UnescapeHtml(r) == Trim(category.value.name)
    ensures forall i :: 0 <= i < |r| ==> !IsHtmlSpecial(r[i])
  {
    Sanitize(if category.Some? then category.value.name else "Uncategorized")
  }

  /** A row without a category shows "Uncategorized" once the escaping is undone. */
  lemma UncategorizedLabel()
    ensures UnescapeHtml(CategoryLabel(None)) == "Uncategorized"
  {
    var u := "Uncategorized";
    assert u[0] == 'U' && u[|u| - 1] == 'd';
    TrimFixpoint(u);
  }

  /** With category ids from 1 up, the label the join gives is the name getCategoryName
      looks up for the article. */
  lemma JoinNameIsCategoryName(articles: Articles, categories: Categories, id: int)
    requires id in articles && 0 !in categories
    ensures var row := JoinArticle(articles, categories, id);
      (if row.category.Some? then row.category.value.name else "Uncategorized")
        == GetCategoryName(articles[id].categoryId, categories)
  {
  }

  /** What one row of the table shows. */
  datatype ListedArticle = ListedArticle(id: int, title: string, snippet: seq<byte>, badge: string)

  function Present(row: ArticleRow): (r: ListedArticle)
    ensures r.id == row.id && r.snippet == Snippet(row.article.content)
    ensures UnescapeHtml(r.title) == Trim(row.article.title)
    ensures forall i :: 0 <= i < |r.title| ==> !IsHtmlSpecial(r.title[i])
    ensures forall i :: 0 <= i < |r.badge| ==> !IsHtmlSpecial(r.badge[i])
    ensures r.badge == CategoryLabel(row.category)
  {
    ListedArticle(row.id, Sanitize(row.article.title), Snippet(row.article.content), CategoryLabel(row.category))
  }

  datatype Outcome = Ended(reply: Reply) | Continue

  /** What the delete handler reads and writes: the article table, the stored image files
      and the flash message. */
  datatype State = State(articles: Articles, files: set<string>, flash: Option<Flash>)

  /** The `delete_article` handler's effect. A failed first query changes nothing but the
      flash, which outside AJAX carries the error, and the page is then shown. Otherwise
      the row goes, its image file goes if the row had a non-empty image, and the handler
      replies. */
  predicate ArticleDeleted(before: State, id: int, ajax: bool, fault: Option<string>, after: State, out: Outcome)
  {
    if fault.Some? then
      var message := "Failed to delete article: " + fault.value;
      && after.articles == before.articles && after.files == before.files
      && after.flash == (if ajax then before.flash else Some(Flash("error", message)))
      && out == (if ajax then Ended(Json(500, "error", message)) else Continue)
    else
      && after.articles == before.articles - {id}
      && after.files == (if id in before.articles && IsTruthy(before.articles[id].image)
                         then before.files - {before.articles[id].image.value}
                         else before.files)
      && after.flash == (if ajax then before.flash else Some(Flash("success", "Article deleted successfully")))
      && out == Ended(if ajax then Json(200, "success", "Article deleted successfully") else Redirect("articles.php"))
  }

  /** A delete leaves no row with the id and removes no file but the row's own image. */
  lemma DeleteRemovesOnlyItsImage(before: State, id: int, ajax: bool, fault: Option<string>, after: State, out: Outcome)
    requires ArticleDeleted(before, id, ajax, fault, after, out)
    ensures after.articles.Keys <= before.articles.Keys
    ensures fault.None? ==> id !in after.articles
    ensures forall f :: f in before.files && f !in after.files ==>
      fault.None? && id in before.articles && before.articles[id].image == Some(f)
  {
  }

  /** The `delete_article` handler. It reads the row's image, deletes the row, then
      deletes the file if the row existed and had a non-empty image. A missing id is no
      error. `fault` is the exception the first query throws, if any. */
  method DeleteArticle(db: Database, session: Session, dir: UploadDir, id: int, ajax: bool, fault: Option<string>)
    returns (out: Outcome)
    requires db.Valid()
    modifies db, session, dir
    ensures db.Valid()
    ensures db.categories == old(db.categories) && db.nextCategoryId == old(db.nextCategoryId)
    ensures session.loggedIn == old(session.loggedIn) && session.username == old(session.username)
    ensures ArticleDeleted(State(old(db.articles), old(dir.files), old(session.flash)), id, ajax, fault,
                           State(db.articles, dir.files, session.flash), out)
  {
    if fault.Some? {
      var message := "Failed to delete article: " + fault.value;
      if ajax {
        return Ended(Json(500, "error", message));
      }
      session.SetFlashMessage("error", message);
      return Continue;
    }
    var image: Option<Option<string>> := if id in db.articles then Some(db.articles[id].image) else None;
    db.DeleteArticle(id);
    if image.Some? && IsTruthy(image.value) {
      dir.DeleteImage(image.value.value);
    }
    if ajax {
      return Ended(Json(200, "success", "Article deleted successfully"));
    }
    session.SetFlashMessage("success", "Article deleted successfully");
    return Ended(Redirect("articles.php"));
  }

  /** What the page renders: the list query's rows, what each shows, and the flash. */
  datatype View = View(rows: seq<ArticleRow>, lines: seq<ListedArticle>, flash: Option<Flash>)

  datatype Response = Sent(reply: Reply) | Shown(view: View)

  /** One request to the page: the login guard, the delete action if one was posted, then
      the list and the flash message, which rendering consumes. A posted delete has the
      effect its handler promises; when the page is shown, the flash it shows is the one
      the handler left. */
  method HandleRequest(db: Database, session: Session, dir: UploadDir, deleteId: Option<int>, postAjax: bool,
                       fault: Option<string>) returns (r: Response)
    requires db.Valid()
    modifies db, session, dir
    ensures db.Valid()
    ensures !old(session.IsLoggedIn()) ==>
      r == Sent(Redirect("login.php")) && unchanged(db) && unchanged(session) && unchanged(dir)
    ensures old(session.IsLoggedIn()) ==> db.categories == old(db.categories)
    ensures deleteId.None? && old(session.IsLoggedIn()) ==>
      unchanged(db) && unchanged(dir) && r.Shown? && r.view.flash == old(session.flash)
    ensures deleteId.Some? && old(session.IsLoggedIn()) ==>
      ArticleDeleted(State(old(db.articles), old(dir.files), old(session.flash)), deleteId.value, postAjax, fault,
                     State(db.articles, dir.files, if r.Shown? then r.view.flash else session.flash),
                     if r.Shown? then Continue else Ended(r.reply))
    ensures r.Shown? ==>
      && db.articles == old(db.articles) && dir.files == old(dir.files)
      && IsArticleListing(db.articles, db.categories, r.view.rows)
      && |r.view.lines| == |r.view.rows|
      && (forall i :: 0 <= i < |r.view.rows| ==> r.view.lines[i] == Present(r.view.rows[i]))
      && session.flash == None
  {
    var redirect := session.RequireLogin();
    if redirect.Some? {
      return Sent(redirect.value);
    }
    if deleteId.Some? {
      var out := DeleteArticle(db, session, dir, deleteId.value, postAjax, fault);
      if out.Ended? {
        return Sent(out.reply);
      }
    }
    var rows := ListArticles(db.articles, db.categories);
    var lines := seq(|rows|, i requires 0 <= i < |rows| => Present(rows[i]));
    var flash := session.GetFlashMessage();
    return Shown(View(rows, lines, flash));
  }
}
