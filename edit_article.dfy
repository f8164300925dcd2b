/** The article edit page (admin/edit_article.php): the id guard, the validation of the
    submitted form, the replacement of the image and the update of the row. */
module EditArticlePage {
  import opened Php
  import opened Database
  import opened Functions
  import opened Config

  const TitleRequired: string := "Article title is required"
  const ContentRequired: string := "Article content is required"
  const InvalidCategory: string := "Invalid category selected"

  /** The three field checks, each adding its own error. `categoryId` is the `(int)` of
      the posted value; 0 means none. */
  function ArticleErrors(categories: Categories, title: string, content: string, categoryId: int): (errors: seq<string>)
    ensures TitleRequired in errors <==> IsEmpty(title)
    ensures ContentRequired in errors <==> IsEmpty(content)
    ensures InvalidCategory in errors <==> categoryId != 0 && categoryId !in categories
    ensures errors == [] <==> !IsEmpty(title) && !IsEmpty(content) && (categoryId == 0 || categoryId in categories)
  {
    (if IsEmpty(title) then [TitleRequired] else []) +
    (if IsEmpty(content) then [ContentRequired] else []) +
    (if categoryId != 0 && categoryId !in categories then [InvalidCategory] else [])
  }

  /** `$categoryId ?: null`: zero is stored as null. */
  function StoredCategory(categoryId: int): (r: Option<int>)
    ensures r.None? <==> categoryId == 0
    ensures r.Some? ==> r.value == categoryId
  {
    if categoryId == 0 then None else Some(categoryId)
  }

  /** A category id that passed validation keeps the article's reference valid. */
  lemma AcceptedCategoryExists(categories: Categories, title: string, content: string, categoryId: int)
    requires ArticleErrors(categories, title, content, categoryId) == []
    ensures StoredCategory(categoryId).Some? ==> StoredCategory(categoryId).value in categories
  {
  }

  /** The image the row carries after the upload step: the new file's name when an upload
      was sent and stored, the current value otherwise. */
  function ImageAfterUpload(current: Option<string>, upload: Option<UploadedFile>, env: UploadEnv): (image: Option<string>)
    ensures image != current ==>
      && upload.Some? && image.Some? && UploadExtension(upload.value) in AllowedExtensions
      && EndsWith(image.value, "." + UploadExtension(upload.value))
  {
    if upload.Some? && UploadOutcome(upload.value, env).Ok? then Some(UploadOutcome(upload.value, env).value)
    else current
  }

  /** The error the upload step adds: the exception text of a failed upload. */
  function UploadErrors(upload: Option<UploadedFile>, env: UploadEnv): (errors: seq<string>)
    ensures |errors| <= 1
    ensures errors == [] <==> upload.None? || UploadOutcome(upload.value, env).Ok?
  {
    if upload.Some? && UploadOutcome(upload.value, env).Err? then ["Image upload failed: " + UploadOutcome(upload.value, env).message]
    else []
  }

  /** The stored files after the upload step: the new file is added first, then the old
      one, if the row had one, is deleted. */
  function FilesAfterUpload(files: set<string>, current: Option<string>, upload: Option<UploadedFile>, env: UploadEnv): set<string> {
    if upload.Some? && UploadOutcome(upload.value, env).Ok? then
      (files + {UploadOutcome(upload.value, env).value}) - (if IsTruthy(current) then {current.value} else {})
    else files
  }

  /** The upload step adds no file but the row's new image and removes none but its old
      one. */
  lemma UploadTouchesOnlyImages(files: set<string>, current: Option<string>, upload: Option<UploadedFile>, env: UploadEnv)
    ensures forall x :: x in FilesAfterUpload(files, current, upload, env) && x !in files ==>
      ImageAfterUpload(current, upload, env) == Some(x)
    ensures forall x :: x in files && x !in FilesAfterUpload(files, current, upload, env) ==>
      IsTruthy(current) && x == current.value
  {
  }

  /** Without a stored upload, the old image is kept, no file is touched, and only a
      failed upload reports an error. */
  lemma NoUploadKeepsImage(files: set<string>, current: Option<string>, upload: Option<UploadedFile>, env: UploadEnv)
    requires upload.None? || !env.moved || CheckUpload(upload.value).Err?
    ensures ImageAfterUpload(current, upload, env) == current
    ensures FilesAfterUpload(files, current, upload, env) == files
    ensures UploadErrors(upload, env) == [] <==> upload.None?
  {
  }

  /** A stored upload replaces the old file: the new name is on disk and in the row, and
      the old file, when it had another name, is gone. */
  lemma UploadReplacesFile(files: set<string>, current: Option<string>, f: UploadedFile, env: UploadEnv)
    requires UploadOutcome(f, env).Ok? && IsTruthy(current)
    requires current.value != UploadOutcome(f, env).value
    ensures ImageAfterUpload(current, Some(f), env) == Some(UploadOutcome(f, env).value)
    ensures UploadOutcome(f, env).value in FilesAfterUpload(files, current, Some(f), env)
    ensures current.value !in FilesAfterUpload(files, current, Some(f), env)
    ensures UploadErrors(Some(f), env) == []
  {
  }

  /** The POSTed form: the raw title and content, the `(int)` of the category field, and
      the uploaded image when one arrived with UPLOAD_ERR_OK. */
  datatype ArticleForm = ArticleForm(title: string, content: string, categoryId: int, image: Option<UploadedFile>)

  datatype Response = Sent(reply: Reply) | Shown(errors: seq<string>, article: Article)

  /** The field checks as the page makes them, appending to the error list. */
  method ValidateArticle(categories: Categories, title: string, content: string, categoryId: int) returns (errors: seq<string>)
    ensures errors == ArticleErrors(categories, title, content, categoryId)
  {
    errors := [];
    if IsEmpty(title) {
      errors := errors + [TitleRequired];
    }
    if IsEmpty(content) {
      errors := errors + [ContentRequired];
    }
    if categoryId != 0 && categoryId !in categories {
      errors := errors + [InvalidCategory];
    }
  }

  lemma StoredStep(files: set<string>, current: Option<string>, f: UploadedFile, env: UploadEnv, name: string)
    requires UploadOutcome(f, env) == Ok(name)
    ensures ImageAfterUpload(current, Some(f), env) == Some(name) && UploadErrors(Some(f), env) == []
    ensures FilesAfterUpload(files, current, Some(f), env) == (files + {name}) - (if IsTruthy(current) then {current.value} else {})
  {
  }

  lemma FailedStep(files: set<string>, current: Option<string>, f: UploadedFile, env: UploadEnv, message: string)
    requires UploadOutcome(f, env) == Err(message)
    ensures ImageAfterUpload(current, Some(f), env) == current && UploadErrors(Some(f), env) == ["Image upload failed: " + message]
    ensures FilesAfterUpload(files, current, Some(f), env) == files
  {
  }

  /** The image step: upload the new file, and only once it is stored delete the old
      one; a failed upload leaves the row's image and the files as they were. */
  method ReplaceImage(dir: UploadDir, current: Option<string>, upload: Option<UploadedFile>, env: UploadEnv)
    returns (image: Option<string>, errors: seq<string>)
    modifies dir
    ensures image == ImageAfterUpload(current, upload, env)
    ensures errors == UploadErrors(upload, env)
    ensures dir.files == FilesAfterUpload(old(dir.files), current, upload, env)
  {
    image, errors := current, [];
    if upload.Some? {
      var uploaded := dir.UploadImage(upload.value, env);
      match uploaded {
        case Ok(newImageName) =>
          StoredStep(old(dir.files), current, upload.value, env, newImageName);
          DeleteOldImage(dir, current);
          image := Some(newImageName);
        case Err(message) =>
          FailedStep(old(dir.files), current, upload.value, env, message);
          errors := ["Image upload failed: " + message];
      }
    }
  }

  /** `if ($article['image']) deleteImage($article['image'])`. */
  method DeleteOldImage(dir: UploadDir, current: Option<string>)
    modifies dir
    ensures dir.files == old(dir.files) - (if IsTruthy(current) then {current.value} else {})
  {
    if IsTruthy(current) {
      dir.DeleteImage(current.value);
    }
  }

  /** What the POST branch reads and writes: the article table, the stored image files and
      the flash message. */
  datatype State = State(articles: Articles, files: set<string>, flash: Option<Flash>)

  /** The POST branch's effect on row `id`: the files change per the upload step in every
      case; with errors, or when the update throws, the row and the flash stay and the form
      is shown again with the errors; otherwise the row gets the trimmed fields, the stored
      category and the image after the upload, the success flash is set and the page
      redirects. */
  predicate Submitted(categories: Categories, before: State, id: int, f: ArticleForm, env: UploadEnv,
                      fault: Option<string>, after: State, r: Response)
  {
    && id in before.articles
    && var article := before.articles[id];
       var errors := ArticleErrors(categories, Trim(f.title), Trim(f.content), f.categoryId) + UploadErrors(f.image, env);
       && after.files == FilesAfterUpload(before.files, article.image, f.image, env)
       && if errors != [] then
            r == Shown(errors, article) && after.articles == before.articles && after.flash == before.flash
          else if fault.Some? then
            && r == Shown(["Failed to update article: " + fault.value], article)
            && after.articles == before.articles && after.flash == before.flash
          else
            && after.articles == before.articles[id := article.(title := Trim(f.title), content := Trim(f.content),
                 categoryId := StoredCategory(f.categoryId), image := ImageAfterUpload(article.image, f.image, env))]
            && after.flash == Some(Flash("success", "Article updated successfully!"))
            && r == Sent(Redirect("articles.php"))
  }

  /** A submitted edit never leaves the row naming a missing category. */
  lemma SubmitKeepsReferences(categories: Categories, before: State, id: int, f: ArticleForm, env: UploadEnv,
                              fault: Option<string>, after: State, r: Response)
    requires Submitted(categories, before, id, f, env, fault, after, r)
    requires ReferencesExist(before.articles, categories)
    ensures ReferencesExist(after.articles, categories)
    ensures after.articles.Keys == before.articles.Keys
  {
    var errors := ArticleErrors(categories, Trim(f.title), Trim(f.content), f.categoryId);
    if errors == [] {
      AcceptedCategoryExists(categories, Trim(f.title), Trim(f.content), f.categoryId);
    }
  }

  /** The POST branch for a row that exists: validate, replace the image, then update the
      row if nothing failed. */
  method SubmitEdit(db: Database, session: Session, dir: UploadDir, id: int, article: Article, f: ArticleForm,
                    env: UploadEnv, fault: Option<string>) returns (r: Response)
    requires db.Valid() && id in db.articles && db.articles[id] == article
    modifies db, session, dir
    ensures db.Valid()
    ensures db.categories == old(db.categories) && db.nextCategoryId == old(db.nextCategoryId)
    ensures session.loggedIn == old(session.loggedIn) && session.username == old(session.username)
    ensures Submitted(old(db.categories), State(old(db.articles), old(dir.files), old(session.flash)), id, f, env, fault,
                      State(db.articles, dir.files, session.flash), r)
  {
    var title := Trim(f.title);
    var content := Trim(f.content);
    var categoryId := f.categoryId;
    var errors := ValidateArticle(db.categories, title, content, categoryId);
    var imageName, uploadErrors := ReplaceImage(dir, article.image, f.image, env);
    if errors == [] {
      AcceptedCategoryExists(db.categories, title, content, categoryId);
    }
    r := SaveEdit(db, session, id, article, title, content, StoredCategory(categoryId), imageName, errors + uploadErrors, fault);
  }

  /** The end of the POST branch: with no error the row gets the four fields and the
      success flash is set; otherwise, or when the update throws, the form is shown again
      with the errors. */
  method SaveEdit(db: Database, session: Session, id: int, article: Article, title: string, content: string,
                  categoryId: Option<int>, image: Option<string>, errors: seq<string>, fault: Option<string>) returns (r: Response)
    requires db.Valid()
    requires errors == [] && categoryId.Some? ==> categoryId.value in db.categories
    modifies db, session
    ensures db.Valid()
    ensures db.categories == old(db.categories) && db.nextCategoryId == old(db.nextCategoryId)
    ensures session.loggedIn == old(session.loggedIn) && session.username == old(session.username)
    ensures errors != [] ==> r == Shown(errors, article) && db.articles == old(db.articles) && session.flash == old(session.flash)
    ensures errors == [] && fault.Some? ==>
      && r == Shown(["Failed to update article: " + fault.value], article)
      && db.articles == old(db.articles) && session.flash == old(session.flash)
    ensures errors == [] && fault.None? ==>
      && db.articles == (if id in old(db.articles)
           then old(db.articles)[id := old(db.articles)[id].(title := title, content := content, categoryId := categoryId, image := image)]
           else old(db.articles))
      && session.flash == Some(Flash("success", "Article updated successfully!"))
      && r == Sent(Redirect("articles.php"))
  {
    if errors == [] {
      if fault.Some? {
        return Shown(errors + ["Failed to update article: " + fault.value], article);
      }
      db.UpdateArticle(id, title, content, categoryId, image);
      session.SetFlashMessage("success", "Article updated successfully!");
      return Sent(Redirect("articles.php"));
    }
    return Shown(errors, article);
  }

  /** One request to the page. `idParam` is `(int)($_GET['id'] ?? 0)`, `form` the POST
      body if the request is a POST, `env` what the upload gets from the server, and
      `fault` the exception the row update throws, if any. */
  method EditArticle(db: Database, session: Session, dir: UploadDir, idParam: int, form: Option<ArticleForm>,
                     env: UploadEnv, fault: Option<string>) returns (r: Response)
    requires db.Valid()
    modifies db, session, dir
    ensures db.Valid()
    ensures db.categories == old(db.categories) && db.nextCategoryId == old(db.nextCategoryId)
    ensures session.loggedIn == old(session.loggedIn) && session.username == old(session.username)
    ensures !old(session.IsLoggedIn()) ==>
      r == Sent(Redirect("login.php")) && unchanged(db) && unchanged(session) && unchanged(dir)
    ensures old(session.IsLoggedIn()) && idParam == 0 ==>
      && r == Sent(Redirect("articles.php")) && session.flash == Some(Flash("error", "Invalid article ID"))
      && unchanged(db) && unchanged(dir)
    ensures old(session.IsLoggedIn()) && idParam != 0 && idParam !in old(db.articles) ==>
      && r == Sent(Redirect("articles.php")) && session.flash == Some(Flash("error", "Article not found"))
      && unchanged(db) && unchanged(dir)
    ensures old(session.IsLoggedIn()) && idParam != 0 && idParam in old(db.articles) && form.None? ==>
      r == Shown([], old(db.articles)[idParam]) && unchanged(db) && unchanged(session) && unchanged(dir)
    ensures old(session.IsLoggedIn()) && idParam != 0 && idParam in old(db.articles) && form.Some? ==>
      Submitted(old(db.categories), State(old(db.articles), old(dir.files), old(session.flash)), idParam, form.value,
                env, fault, State(db.articles, dir.files, session.flash), r)
  {
    var redirect := session.RequireLogin();
    if redirect.Some? {
      return Sent(redirect.value);
    }
    if idParam == 0 {
      session.SetFlashMessage("error", "Invalid article ID");
      return Sent(Redirect("articles.php"));
    }
    if idParam !in db.articles {
      session.SetFlashMessage("error", "Article not found");
      return Sent(Redirect("articles.php"));
    }
    var article := db.articles[idParam];
    if form.None? {
      return Shown([], article);
    }
    r := SubmitEdit(db, session, dir, idParam, article, form.value, env, fault);
  }

  /** The edit is not atomic: a form whose title is empty still stores its upload and
      deletes the old file, and the row, left as it was, names a file that is gone. */
  method RejectedEditLosesImage(db: Database, session: Session, dir: UploadDir, id: int, old_image: string,
                                form: ArticleForm, env: UploadEnv) returns (r: Response)
    requires db.Valid() && session.IsLoggedIn()
    requires id != 0 && id in db.articles && db.articles[id].image == Some(old_image) && !IsEmpty(old_image)
    requires old_image in dir.files
    requires IsEmpty(Trim(form.title)) && form.image.Some?
    requires UploadOutcome(form.image.value, env).Ok? && UploadOutcome(form.image.value, env).value != old_image
    modifies db, session, dir
    ensures r.Shown? && TitleRequired in r.errors
    ensures id in db.articles && db.articles[id].image == Some(old_image)
    ensures old_image !in dir.files
  {
    r := SubmitEdit(db, session, dir, id, db.articles[id], form, env, None);
  }
}
