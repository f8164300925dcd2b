/** The category page (admin/categories.php): the add, edit and delete handlers, the
    single-category lookup and the category list with its article counts. */
module CategoriesPage {
  import opened Php
  import opened Database
  import opened Functions

  const NameRequired: string := "Category name is required"
  const NameExists: string := "Category with this name already exists"

  /** The validation of a submitted (already trimmed) name: `empty()` first, then the
      name lookup, which for an edit leaves out the row being edited. */
  function CategoryErrors(categories: Categories, name: string, self: Option<int>): (errors: seq<string>)
    ensures errors == [] <==> !IsEmpty(name) && !NameTaken(categories, name, self)
    ensures errors == [NameRequired] <==> IsEmpty(name)
    ensures errors == [NameExists] <==> !IsEmpty(name) && NameTaken(categories, name, self)
  {
    if IsEmpty(name) then [NameRequired]
    else if NameTaken(categories, name, self) then [NameExists]
    else []
  }

  /** The checks both handlers run on the trimmed name, in the order they run them. */
  method ValidateCategory(categories: Categories, name: string, self: Option<int>) returns (errors: seq<string>)
    ensures errors == CategoryErrors(categories, name, self)
  {
    errors := [];
    if IsEmpty(name) {
      errors := errors + [NameRequired];
    } else {
      var existing := NameTaken(categories, name, self);
      if existing {
        errors := errors + [NameExists];
      }
    }
  }

  /** Re-saving a category under its own name passes the uniqueness check. */
  lemma ResaveAccepted(categories: Categories, id: int)
    requires UniqueNames(categories) && id in categories && !IsEmpty(categories[id].name)
    ensures CategoryErrors(categories, categories[id].name, Some(id)) == []
  {
  }

  /** A padded "0" trims to "0", which `empty()` rejects. */
  lemma PaddedZeroRejected(categories: Categories, self: Option<int>)
    ensures CategoryErrors(categories, Trim(" 0 "), self) == [NameRequired]
  {
    var s := " 0 ";
    assert s[0] == ' ' && s[1] == '0' && s[2] == ' ';
    assert TrimStart(s, 0) == 1;
    assert TrimEnd(s, 1, 3) == 2;
    assert Trim(s) == s[1..2] == "0";
  }

  /** How a POST handler ends: with a reply, or by falling through to the page with the
      errors it collected. The page never renders that list: a failed non-AJAX action
      shows the category list with no message. */
  datatype Outcome = Ended(reply: Reply) | Continue(errors: seq<string>)

  /** What the handlers read and write: the two tables and the flash message. */
  datatype State = State(articles: Articles, categories: Categories, flash: Option<Flash>)

  /** The `add_category` handler's effect. The name is validated first; a rejected name
      or a failed insert changes nothing and is answered with a 400 or 500 reply over AJAX,
      and with the error list otherwise. A successful insert adds the row under `nextId`
      and, outside AJAX, sets the success flash and redirects. */
  predicate Added(before: State, nextId: int, rawName: string, rawDescription: string, ajax: bool,
                  now: int, fault: Option<string>, after: State, out: Outcome)
  {
    var name := Trim(rawName);
    var errors := CategoryErrors(before.categories, name, None);
    if errors != [] then
      && after == before
      && out == (if ajax then Ended(Json(400, "error", Implode(", ", errors))) else Continue(errors))
    else if fault.Some? then
      && after == before
      && var message := "Failed to add category: " + fault.value;
         out == (if ajax then Ended(Json(500, "error", message)) else Continue([message]))
    else
      && nextId !in before.categories
      && after.categories == before.categories[nextId := Category(name, Trim(rawDescription), now)]
      && after.articles == before.articles
      && after.flash == (if ajax then before.flash else Some(Flash("success", "Category added successfully")))
      && out == Ended(if ajax then Json(200, "success", "Category added successfully") else Redirect("categories.php"))
  }

  /** The `edit_category` handler's effect: as for an add, except that the name check
      leaves out the row being edited, and that an update of a missing id changes nothing
      but still reports success. */
  predicate Edited(before: State, id: int, rawName: string, rawDescription: string, ajax: bool,
                   fault: Option<string>, after: State, out: Outcome)
  {
    var name := Trim(rawName);
    var errors := CategoryErrors(before.categories, name, Some(id));
    if errors != [] then
      && after == before
      && out == (if ajax then Ended(Json(400, "error", Implode(", ", errors))) else Continue(errors))
    else if fault.Some? then
      && after == before
      && var message := "Failed to update category: " + fault.value;
         out == (if ajax then Ended(Json(500, "error", message)) else Continue([message]))
    else
      && after.categories == (if id in before.categories
           then before.categories[id := before.categories[id].(name := name, description := Trim(rawDescription))]
           else before.categories)
      && after.articles == before.articles
      && after.flash == (if ajax then before.flash else Some(Flash("success", "Category updated successfully")))
      && out == Ended(if ajax then Json(200, "success", "Category updated successfully") else Redirect("categories.php"))
  }

  /** The `delete_category` handler's effect: a failed first query changes nothing;
      otherwise the category's articles lose their reference and the row goes. */
  predicate Deleted(before: State, id: int, ajax: bool, fault: Option<string>, after: State, out: Outcome)
  {
    if fault.Some? then
      && after == before
      && var message := "Failed to delete category: " + fault.value;
         out == (if ajax then Ended(Json(500, "error", message)) else Continue([message]))
    else
      && after.articles == ClearCategory(before.articles, id)
      && after.categories == before.categories - {id}
      && after.flash == (if ajax then before.flash else Some(Flash("success", "Category deleted successfully")))
      && out == Ended(if ajax then Json(200, "success", "Category deleted successfully") else Redirect("categories.php"))
  }

  /** An add keeps the names unique and every article reference resolvable. */
  lemma AddKeepsIntegrity(before: State, nextId: int, rawName: string, rawDescription: string, ajax: bool,
                          now: int, fault: Option<string>, after: State, out: Outcome)
    requires Added(before, nextId, rawName, rawDescription, ajax, now, fault, after, out)
    requires UniqueNames(before.categories) && ReferencesExist(before.articles, before.categories)
    ensures UniqueNames(after.categories) && ReferencesExist(after.articles, after.categories)
  {
    var name := Trim(rawName);
    if CategoryErrors(before.categories, name, None) == [] && fault.None? {
      InsertKeepsUniqueNames(before.categories, nextId, Category(name, Trim(rawDescription), now));
    }
  }

  /** An edit keeps the names unique and every article reference resolvable. */
  lemma EditKeepsIntegrity(before: State, id: int, rawName: string, rawDescription: string, ajax: bool,
                           fault: Option<string>, after: State, out: Outcome)
    requires Edited(before, id, rawName, rawDescription, ajax, fault, after, out)
    requires UniqueNames(before.categories) && ReferencesExist(before.articles, before.categories)
    ensures UniqueNames(after.categories) && ReferencesExist(after.articles, after.categories)
  {
    var name := Trim(rawName);
    if CategoryErrors(before.categories, name, Some(id)) == [] && fault.None? && id in before.categories {
      RenameKeepsUniqueNames(before.categories, id, name, Trim(rawDescription));
    }
  }

  /** A delete keeps every article reference resolvable: no article is left pointing at
      the removed row. */
  lemma DeleteKeepsIntegrity(before: State, id: int, ajax: bool, fault: Option<string>, after: State, out: Outcome)
    requires Deleted(before, id, ajax, fault, after, out)
    requires UniqueNames(before.categories) && ReferencesExist(before.articles, before.categories)
    ensures UniqueNames(after.categories) && ReferencesExist(after.articles, after.categories)
    ensures fault.None? ==> forall k :: k in after.articles ==> after.articles[k].categoryId != Some(id)
  {
    if fault.None? {
      ClearThenRemoveKeepsReferences(before.articles, before.categories, id);
    }
  }

  /** The `add_category` handler. `fault` is the exception the insert throws, if any.
      `now` is the creation time. */
  method AddCategory(db: Database, session: Session, rawName: string, rawDescription: string,
                     ajax: bool, now: int, fault: Option<string>) returns (out: Outcome)
    requires db.Valid()
    modifies db, session
    ensures db.Valid()
    ensures session.loggedIn == old(session.loggedIn) && session.username == old(session.username)
    ensures Added(State(old(db.articles), old(db.categories), old(session.flash)), old(db.nextCategoryId),
                  rawName, rawDescription, ajax, now, fault, State(db.articles, db.categories, session.flash), out)
  {
    var name := Trim(rawName);
    var description := Trim(rawDescription);
    var errors := ValidateCategory(db.categories, name, None);
    if errors != [] {
      if ajax {
        return Ended(Json(400, "error", Implode(", ", errors)));
      }
      return Continue(errors);
    }
    if fault.Some? {
      var message := "Failed to add category: " + fault.value;
      if ajax {
        return Ended(Json(500, "error", message));
      }
      return Continue([message]);
    }
    var id := db.InsertCategory(Category(name, description, now));
    if ajax {
      return Ended(Json(200, "success", "Category added successfully"));
    }
    session.SetFlashMessage("success", "Category added successfully");
    return Ended(Redirect("categories.php"));
  }

  /** The `edit_category` handler. `fault` is the exception the update throws, if any. */
  method EditCategory(db: Database, session: Session, id: int, rawName: string, rawDescription: string,
                      ajax: bool, fault: Option<string>) returns (out: Outcome)
    requires db.Valid()
    modifies db, session
    ensures db.Valid()
    ensures session.loggedIn == old(session.loggedIn) && session.username == old(session.username)
    ensures db.nextCategoryId == old(db.nextCategoryId)
    ensures Edited(State(old(db.articles), old(db.categories), old(session.flash)), id,
                   rawName, rawDescription, ajax, fault, State(db.articles, db.categories, session.flash), out)
  {
    var name := Trim(rawName);
    var description := Trim(rawDescription);
    var errors := ValidateCategory(db.categories, name, Some(id));
    if errors != [] {
      if ajax {
        return Ended(Json(400, "error", Implode(", ", errors)));
      }
      return Continue(errors);
    }
    if fault.Some? {
      var message := "Failed to update category: " + fault.value;
      if ajax {
        return Ended(Json(500, "error", message));
      }
      return Continue([message]);
    }
    db.UpdateCategory(id, name, description);
    if ajax {
      return Ended(Json(200, "success", "Category updated successfully"));
    }
    session.SetFlashMessage("success", "Category updated successfully");
    return Ended(Redirect("categories.php"));
  }

  /** The `delete_category` handler: the articles of the category lose their reference,
      then the category row goes. `fault` is the exception the first query throws, if
      any. A missing id is no error. */
  method DeleteCategory(db: Database, session: Session, id: int, ajax: bool, fault: Option<string>) returns (out: Outcome)
    requires db.Valid()
    modifies db, session
    ensures db.Valid()
    ensures session.loggedIn == old(session.loggedIn) && session.username == old(session.username)
    ensures db.nextCategoryId == old(db.nextCategoryId)
    ensures Deleted(State(old(db.articles), old(db.categories), old(session.flash)), id,
                    ajax, fault, State(db.articles, db.categories, session.flash), out)
  {
    if fault.Some? {
      var message := "Failed to delete category: " + fault.value;
      if ajax {
        return Ended(Json(500, "error", message));
      }
      return Continue([message]);
    }
    var articleCount := CountArticlesIn(db.articles, id);
    if articleCount > 0 {
      db.ClearCategoryReferences(id);
    } else {
      ClearCategoryUnused(db.articles, id);
    }
    db.DeleteCategory(id);
    if ajax {
      return Ended(Json(200, "success", "Category deleted successfully"));
    }
    session.SetFlashMessage("success", "Category deleted successfully");
    return Ended(Redirect("categories.php"));
  }

  /** The `get_category` lookup. Its guard is `isset($_GET['get_category'])` and
      `handleAjax()`, and `handleAjax()` reads only the POSTed `ajax` field. */
  method GetCategory(db: Database, getCategory: bool, postAjax: bool, id: int) returns (reply: Option<Reply>)
    ensures !(getCategory && postAjax) ==> reply == None
    ensures getCategory && postAjax && id in db.categories ==> reply == Some(JsonCategory(id, db.categories[id]))
    ensures getCategory && postAjax && id !in db.categories ==> reply == Some(Json(404, "error", "Category not found"))
  {
    if getCategory && postAjax {
      if id in db.categories {
        return Some(JsonCategory(id, db.categories[id]));
      }
      return Some(Json(404, "error", "Category not found"));
    }
    return None;
  }

  /** The POST action of a request to the page, if any. */
  datatype Action =
    | NoAction
    | Add(name: string, description: string)
    | Edit(id: int, name: string, description: string)
    | Delete(id: int)

  /** What the page ends with: the collected `$errors` (kept for the contract, never
      rendered), the category list and the flash message, which are rendered. */
  datatype View = View(errors: seq<string>, rows: seq<CategoryRow>, flash: Option<Flash>)

  datatype Response = Sent(reply: Reply) | Shown(view: View)

  /** The reply to a `get_category` lookup of `id`. */
  function LookupReply(categories: Categories, id: int): (reply: Reply)
    ensures reply.JsonCategory? <==> id in categories
    ensures reply.JsonCategory? ==> reply == JsonCategory(id, categories[id])
  {
    if id in categories then JsonCategory(id, categories[id]) else Json(404, "error", "Category not found")
  }

  /** How a response ends the handler's part of a request: a sent reply, or the page with
      its error list. */
  function AsOutcome(r: Response): Outcome {
    if r.Shown? then Continue(r.view.errors) else Ended(r.reply)
  }

  /** One request to the page: the login guard, the POST action, the lookup, then the list
      and the flash message, which rendering consumes. The POSTed action has the effect its
      handler promises; when the page is shown, the flash it shows is the one the handler
      left. A non-AJAX action that fails leaves its errors in `r.view.errors`, which the
      page does not render: the user sees the list and no message. */
  method HandleRequest(db: Database, session: Session, action: Action, postAjax: bool,
                       getCategory: bool, lookupId: int, now: int, fault: Option<string>) returns (r: Response)
    requires db.Valid()
    modifies db, session
    ensures db.Valid()
    ensures !old(session.IsLoggedIn()) ==> r == Sent(Redirect("login.php")) && unchanged(db) && unchanged(session)
    ensures old(session.IsLoggedIn()) ==>
      var before := State(old(db.articles), old(db.categories), old(session.flash));
      var after := State(db.articles, db.categories, if r.Shown? then r.view.flash else session.flash);
      match action
      case NoAction =>
        && after == before
        && AsOutcome(r) == (if getCategory && postAjax then Ended(LookupReply(before.categories, lookupId)) else Continue([]))
      case Add(name, description) =>
        Added(before, old(db.nextCategoryId), name, description, postAjax, now, fault, after, AsOutcome(r))
      case Edit(id, name, description) =>
        Edited(before, id, name, description, postAjax, fault, after, AsOutcome(r))
      case Delete(id) =>
        Deleted(before, id, postAjax, fault, after, AsOutcome(r))
    ensures r.Shown? ==>
      && db.articles == old(db.articles) && db.categories == old(db.categories)
      && IsCategoryListing(db.articles, db.categories, r.view.rows)
      && session.flash == None
  {
    var redirect := session.RequireLogin();
    if redirect.Some? {
      return Sent(redirect.value);
    }
    var errors: seq<string> := [];
    var out: Outcome := Continue([]);
    match action {
      case NoAction =>
      case Add(name, description) =>
        out := AddCategory(db, session, name, description, postAjax, now, fault);
      case Edit(id, name, description) =>
        out := EditCategory(db, session, id, name, description, postAjax, fault);
      case Delete(id) =>
        out := DeleteCategory(db, session, id, postAjax, fault);
    }
    if out.Ended? {
      return Sent(out.reply);
    }
    errors := out.errors;
    var lookup := GetCategory(db, getCategory, postAjax, lookupId);
    if lookup.Some? {
      return Sent(lookup.value);
    }
    var rows := ListCategories(db.articles, db.categories);
    var flash := session.GetFlashMessage();
    return Shown(View(errors, rows, flash));
  }
}
