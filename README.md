# Blog admin panel: verified model of the request handlers

This project is a Dafny model of the PHP admin panel of a small blog. The panel has
two tables, `articles` and `categories`, a directory of uploaded images, and a PHP
session holding the login flag, the username and a one-shot flash message. The model
covers these parts:

- **the helper layer** (`admin/includes/functions.php`):
  - the login check, login and logout;
  - the flash message: set overwrites, get hands it out once;
  - upload validation and the stored name;
  - idempotent image deletion;
  - `sanitize`, `truncateText` and `getCategoryName`.
- **the category page** (`admin/categories.php`):
  - the add, edit and delete handlers;
  - the `get_category` lookup;
  - the list with per-category article counts.
- **the article edit page** (`admin/edit_article.php`):
  - the id guard and the field validation;
  - the image replacement;
  - the row update.
- **the article list page** (`admin/articles.php`):
  - the delete handler;
  - the joined, newest-first list with each row's snippet and category badge.
- **the public feed** (`admin/api/get_articles.php`):
  - the per-article projection;
  - the `{status, count, articles}` envelope and its error case.
- **the dashboard** (`admin/index.php`):
  - the two counts;
  - the five newest articles;
  - the consumption of the flash message.

The pages' state is modelled as follows.

- **Tables.** The tables are maps from id to row in a `Database` class, whose methods stand for the `insert`/`update`/`delete` calls the pages make. The ordered list queries are read-only methods that return a sequence satisfying a specification predicate: every row once, joined, newest first, with ties left open.
- **Session and files.** The session is a `Session` class. The upload directory is an `UploadDir` class holding a set of file names.
- **Handlers.** Every handler is a method:
  - its `ensures` states the new tables, files and session field by field;
  - it states the reply: a JSON body with its HTTP status, or a redirect;
  - it covers each branch the PHP takes, including the validation failures, the AJAX and non-AJAX paths, and the exception paths.
- **Outside inputs.** Everything outside the PHP code becomes a parameter:
  - the `ajax` POST field;
  - the result of `uniqid()`, `time()` and `move_uploaded_file`;
  - the exception a database call throws.
- **Integrity invariant.** `Database.Valid()` states three things:
  - category ids come from the auto-increment counter;
  - category names are unique;
  - every article's `category_id` names an existing category.

  Every handler preserves it: the name checks keep names unique, the category check on the edit page and the reference clearing before a category delete keep references valid.
- **PHP runtime.** The runtime pieces the handlers depend on are written out in module `Php`:
  - `empty()` on strings, which is also true for `"0"`;
  - `trim()` with its six default characters and ASCII `strtolower()`;
  - the extension part of `pathinfo()`;
  - `htmlspecialchars(…, ENT_QUOTES)` with its decoding;
  - a simplified `strip_tags()`;
  - the UTF-8 byte view that `strlen`/`substr` see.

Five behaviours of the code are easy to miss, and the model keeps them:

- **Upload on failed validation.** The edit page uploads the new image and deletes the old one before it looks at the validation result. A rejected form therefore still replaces the file. `EditArticlePage.RejectedEditLosesImage` shows the consequence: the row keeps naming a deleted file.
- **Exception text in replies.** The text of a caught database exception is appended to the AJAX reply ("Failed to add category: …"), to the feed's `error` field, to the error list the edit page renders, and to the flash of a failed non-AJAX article delete.
- **Unrendered category errors.** The category page collects `$errors` (admin/categories.php:18-131) but its template shows only the flash message and the list (admin/categories.php:634-642). A non-AJAX add, edit or delete that fails validation or throws shows the list again with no message. `CategoriesPage.View.errors` keeps the collected list so the contracts can state it.
- **`get_category` lookup.** It answers only when `ajax` is POSTed, because `handleAjax()` reads `$_POST` only. A plain GET with `get_category` set falls through to the page.
- **The string "0".** Field validation uses `empty()`, so a name, title or content of "0" counts as missing.

## Model

| member | source | states |
|---|---|---|
| Php.IsEmpty | admin/categories.php:17 | only strings of at most one character are empty: `empty()` holds for "" and "0" alone |
| Php.Trim | admin/categories.php:14-15 | the trimmed value is empty or begins and ends with a character `trim()` keeps, and is never longer than the input |
| Php.TrimStrips | admin/categories.php:14-15 | `trim()` returns a contiguous slice of its input, and everything removed before and after it is a trim character |
| Php.TrimFixpoint | admin/categories.php:14-15 | trimming leaves a string unchanged exactly when it is empty or neither end is a trim character |
| Php.TrimIdempotent | admin/categories.php:14-15 | trimming an already trimmed value changes nothing |
| Php.Lower | admin/includes/functions.php:72 | `strtolower` keeps the length and lower-cases each ASCII letter in place |
| Php.LastIndexOf | admin/includes/functions.php:72 | the position found holds the character and no later position does; `None` only when the character is absent |
| Php.Basename | admin/includes/functions.php:72 | the last path component is a suffix of the path with no '/' in it |
| Php.BasenameMaximal | admin/includes/functions.php:72 | the last path component is the whole path or is preceded by a '/' |
| Php.Extension | admin/includes/functions.php:72 | the extension has no '.' or '/', and a non-empty one is what follows the last '.' of the base name |
| Php.ExtensionEmpty | admin/includes/functions.php:72 | the extension is empty exactly when the base name has no '.' or ends in one |
| Php.Decimal | admin/includes/functions.php:80 | the decimal form of `time()` is non-empty, all digits, with no leading zero except for 0 itself, and the digits denote the number |
| Php.ImplodeEnds | admin/categories.php:53 | the joined text begins with the first part and ends with the last |
| Php.EscapeHtml | admin/includes/functions.php:105 | the escaped text contains no quote or angle bracket and is at least as long as the input |
| Php.UnescapeEscape | admin/includes/functions.php:105 | decoding the entities of escaped text gives back exactly the original text |
| Php.StripTags | admin/articles.php:222 | the stripped text is no longer than the input, holds no NUL, and every '<' left in it is followed by white space |
| Php.StripTagsPlainText | admin/articles.php:222 | text with no NUL and no tag opener (every '<' followed by white space) passes through strip_tags unchanged |
| Php.StripTagsIdempotent | admin/articles.php:222 | stripping twice is stripping once |
| Php.LessThanKept | admin/articles.php:222 | "x < 5" is kept as it is: a '<' before a space opens no tag |
| Php.NulDropped | admin/articles.php:222 | a NUL byte is removed: "a\0b" becomes "ab" |
| Php.Utf8Ascii | admin/includes/functions.php:112-115 | on ASCII text the byte length `strlen` sees equals the character count, byte for character |
| Functions.Session.IsLoggedIn | admin/includes/functions.php:12-14 | the strict comparison with `true`: a flag of 1 or "1" is not logged in |
| Functions.Session.RequireLogin | admin/includes/functions.php:12-24 | no redirect exactly when the login flag holds boolean `true` (a truthy 1 or "1" is not enough); otherwise a redirect to login.php |
| Functions.Session.LoginUser | admin/includes/functions.php:29-36 | succeeds iff both strings equal the configured pair; on success the flag and username are set, on failure they are unchanged |
| Functions.Session.LogoutUser | admin/includes/functions.php:41-45 | afterwards the user is not logged in, the session fields are cleared, and the reply redirects to login.php |
| Functions.Session.SetFlashMessage | admin/includes/functions.php:158-163 | the pending message becomes the new one, replacing any earlier one; login state unchanged |
| Functions.Session.GetFlashMessage | admin/includes/functions.php:168-175 | returns the pending message, if any, and clears it |
| Functions.FlashDeliveredOnce | admin/includes/functions.php:158-175 | after two sets the first read returns the second message and the next read returns nothing |
| Functions.UploadExtension | admin/includes/functions.php:71-72 | the extension checked against the allow-list has no '.', no '/' and no upper-case ASCII letter |
| Functions.CheckUpload | admin/includes/functions.php:60-77 | each error occurs exactly under its condition in the code's order (missing temp file, then size > 5 MiB, then a lower-cased extension outside the allow-list); so an oversized file with a bad type reports the size, and a size equal to the maximum passes; acceptance yields the lower-cased extension |
| Functions.TooLargeMessageText | admin/includes/functions.php:66-68 | the size error reads "File size too large. Maximum size is 5MB" |
| Functions.BadTypeMessageText | admin/includes/functions.php:75-77 | the type error lists "jpg, jpeg, png, gif, webp" joined by ", " |
| Functions.AllowedText | admin/includes/functions.php:76 | `implode(', ', ALLOWED_EXTENSIONS)` reads "jpg, jpeg, png, gif, webp" |
| Functions.CheckMessagesDistinct | admin/includes/functions.php:61-77 | the three validation errors are different messages |
| Functions.StoredName | admin/includes/functions.php:80 | the generated name ends in "." plus the extension |
| Functions.UploadOutcome | admin/includes/functions.php:60-88 | the upload succeeds iff the checks pass and the move succeeds; the result is the generated name; a failure carries the check's message or "Failed to upload file" |
| Functions.StoredNameIsLocal | admin/includes/functions.php:70-81 | a stored name keeps only the lower-cased extension of the client's name and contains no '/' when `uniqid()` has none |
| Functions.UpperCaseExtensionAccepted | admin/includes/functions.php:70-77 | "PHOTO.JPG" passes the checks with extension "jpg" |
| Functions.UpperCaseExtensionStored | admin/includes/functions.php:70-88 | "PHOTO.JPG" is stored under a name ending in ".jpg" |
| Functions.UploadDir.UploadImage | admin/includes/functions.php:50-89 | returns exactly `UploadOutcome`; the file set gains the new name on success and is unchanged on any failure |
| Functions.UploadDir.DeleteImage | admin/includes/functions.php:94-99 | the name is no longer stored; a name not stored is a no-op, so deleting twice is deleting once |
| Functions.Sanitize | admin/includes/functions.php:104-106 | the output has no quote or angle bracket, and decoding it gives exactly the trimmed input |
| Functions.TruncateText | admin/includes/functions.php:111-116 | a text within the limit is returned unchanged; a longer one becomes its first `length` bytes followed by "...", `length + 3` bytes in all |
| Functions.TruncateAscii | admin/includes/functions.php:111-116 | on ASCII text, truncating bytes is truncating characters and appending "..." |
| Functions.TruncateSplitsCharacter | admin/includes/functions.php:111-116 | on non-ASCII text the byte cut can split a character: 59 letters and "é" keep only the byte 0xC3 of "é" before the "..." |
| Functions.GetCategoryName | admin/includes/functions.php:128-133 | "Uncategorized" for a missing or zero id or an id with no row, otherwise that row's name |
| Database.CountArticlesIn | admin/categories.php:110 | the count is the number of articles referencing the category, zero exactly when none does |
| Database.ClearCategory | admin/categories.php:114 | nulling `category_id` keeps every article and all its other fields; afterwards no article is in that category and every other category keeps exactly its articles |
| Database.ClearCategoryUnused | admin/categories.php:110-115 | with a zero count the nulling update changes nothing, so skipping it is the same as running it |
| Database.ClearThenRemoveKeepsReferences | admin/categories.php:110-118 | clearing the references and then deleting the category keeps every article's category reference valid |
| Database.InsertKeepsUniqueNames | admin/categories.php:21-35 | inserting a name no row carries keeps names unique |
| Database.RenameKeepsUniqueNames | admin/categories.php:68-81 | renaming to a name no other row carries keeps names unique |
| Database.JoinArticle | admin/articles.php:40-45 | the LEFT JOIN pairs an article with its category's id and name exactly when its `category_id` names an existing row |
| Database.InsertNewest | admin/articles.php:44 | inserting into a newest-first id list keeps it newest first, adds exactly that id and no repeat |
| Database.NewestFirstIds | admin/articles.php:44 | every id exactly once, with timestamps never increasing |
| Database.ListArticles | admin/articles.php:40-45 | every article exactly once, joined with its category, newest first |
| Database.ArticleRowsListing | admin/articles.php:40-45 | joining the newest-first ids row by row gives the article listing |
| Database.ListCategories | admin/categories.php:150-156 | every category exactly once with `article_count` equal to the number of articles referencing it, newest first |
| Database.CategoryRowsListing | admin/categories.php:150-156 | counting per newest-first id gives the category listing |
| Database.Database.InsertCategory | admin/categories.php:29-35 | the row is stored under a fresh id, nothing else changes, and integrity holds when the name was free |
| Database.Database.UpdateCategory | admin/categories.php:76-81 | only `name` and `description` of that row change (`created_at` and other rows kept); a missing id changes nothing |
| Database.Database.ClearCategoryReferences | admin/categories.php:114 | the articles become `ClearCategory` of the old ones; integrity is kept |
| Database.Database.DeleteCategory | admin/categories.php:118 | exactly that category is removed; integrity is kept once no article references it |
| Database.Database.UpdateArticle | admin/edit_article.php:65-74 | exactly `title`, `content`, `category_id` and `image` of that row change; other rows and the categories are kept |
| Database.Database.DeleteArticle | admin/articles.php:16 | exactly that article is removed; categories unchanged |
| CategoriesPage.CategoryErrors | admin/categories.php:14-25 | no error iff the trimmed name is non-empty under `empty()` and no (other) row carries it; "required" exactly when empty, "already exists" exactly when taken |
| CategoriesPage.ValidateCategory | admin/categories.php:17-25 | the appended error list is `CategoryErrors` |
| CategoriesPage.ResaveAccepted | admin/categories.php:68-71 | re-saving a category under its own name passes the uniqueness check |
| CategoriesPage.PaddedZeroRejected | admin/categories.php:14-18 | the name " 0 " trims to "0" and is rejected as missing |
| CategoriesPage.AddKeepsIntegrity | admin/categories.php:14-35 | the effect of an add keeps category names unique and every article reference resolvable |
| CategoriesPage.EditKeepsIntegrity | admin/categories.php:60-81 | the effect of an edit keeps category names unique and every article reference resolvable |
| CategoriesPage.DeleteKeepsIntegrity | admin/categories.php:104-118 | the effect of a delete keeps references resolvable, and after a successful delete no article references the removed id |
| CategoriesPage.AddCategory | admin/categories.php:12-56 | the `Added` effect: validation errors change nothing and give 400 with the errors joined by ", " (AJAX) or fall through with those errors collected (not rendered); an insert exception changes nothing and gives 500 or falls through with its message collected; success adds exactly one row, with the trimmed name and description and the creation time, under a fresh id, then the success JSON, or the success flash and a redirect; the flash changes only in that last case |
| CategoriesPage.EditCategory | admin/categories.php:58-102 | the `Edited` effect: the same three outcomes; success changes only `name` and `description` of that id, and reports success for a missing id too; the flash changes only on a non-AJAX success |
| CategoriesPage.DeleteCategory | admin/categories.php:104-134 | the `Deleted` effect: an exception changes nothing and gives 500 or falls through with its message collected (not rendered); otherwise the referencing articles get a null `category_id`, the category is removed, and the success JSON, or the success flash and a redirect, follows |
| CategoriesPage.GetCategory | admin/categories.php:137-147 | answers only when `get_category` is set and `ajax` is POSTed: the row, or 404 "Category not found" |
| CategoriesPage.LookupReply | admin/categories.php:140-146 | the lookup answers with the category exactly when its id is in the table |
| CategoriesPage.HandleRequest | admin/categories.php:5-158 | not logged in: redirect, nothing changes; a POSTed add, edit or delete has exactly its handler's effect on the tables, the reply or the collected (unrendered) errors, and the flash; with no action the tables stay and the lookup reply or an error-free page follows; a page that is shown leaves the tables as they were, lists the categories with their counts and consumes the flash message |
| EditArticlePage.ArticleErrors | admin/edit_article.php:34-45 | each error is present exactly under its condition (empty title, empty content, non-zero category id with no row); no error iff all three hold |
| EditArticlePage.StoredCategory | admin/edit_article.php:70 | category id 0 is stored as null, any other as itself |
| EditArticlePage.AcceptedCategoryExists | admin/edit_article.php:43-45 | a category id that passed validation is null or names an existing category |
| EditArticlePage.ValidateArticle | admin/edit_article.php:34-45 | the appended error list is `ArticleErrors` |
| EditArticlePage.ImageAfterUpload | admin/edit_article.php:48-58 | the row's image changes only after an accepted upload, to a name ending in "." plus its allowed lower-case extension |
| EditArticlePage.UploadErrors | admin/edit_article.php:59-61 | at most one error, present exactly when an upload was sent and failed |
| EditArticlePage.UploadTouchesOnlyImages | admin/edit_article.php:49-58 | the upload step adds no file but the row's new image and removes none but its old one |
| EditArticlePage.NoUploadKeepsImage | admin/edit_article.php:48-62 | without a stored upload the image value and the files are unchanged, and only a failed upload reports an error |
| EditArticlePage.UploadReplacesFile | admin/edit_article.php:49-58 | with a stored upload the row gets the new name, the new file exists, and the old file is gone |
| EditArticlePage.DeleteOldImage | admin/edit_article.php:54-57 | the old file is deleted exactly when the row's image is non-empty; no other file changes |
| EditArticlePage.ReplaceImage | admin/edit_article.php:47-62 | the image value, the error and the file set are those of the store-then-delete step |
| EditArticlePage.SaveEdit | admin/edit_article.php:64-82 | with errors: nothing written and the form shown again; with an update exception: its message shown; otherwise the four fields of that row are written, the success flash set and a redirect sent |
| EditArticlePage.SubmitEdit | admin/edit_article.php:29-83 | the `Submitted` effect: files per the upload step in every case; with validation or upload errors the row and the flash stay and the form is shown with the errors; an update exception shows its message; otherwise the row gets the trimmed title and content, the stored category and the new image, the success flash is set and a redirect sent |
| EditArticlePage.SubmitKeepsReferences | admin/edit_article.php:43-74 | a submitted edit keeps the set of articles and never leaves a row naming a missing category |
| EditArticlePage.EditArticle | admin/edit_article.php:5-83 | not logged in: redirect; id 0: "Invalid article ID"; no row: "Article not found"; both leave tables and files untouched; GET shows the row and changes nothing; POST has exactly the `Submitted` effect of `SubmitEdit` |
| EditArticlePage.RejectedEditLosesImage | admin/edit_article.php:47-65 | a form with an empty title still stores its upload and deletes the old file, while the row keeps naming the deleted file |
| ArticlesPage.Snippet | admin/articles.php:222 | the snippet is the tag-stripped content's bytes when at most 60, else its first 60 bytes then "..." |
| ArticlesPage.SnippetOfPlainText | admin/articles.php:222 | on plain ASCII text (no NUL, every '<' followed by white space) the snippet is the first 60 characters followed by "..." |
| ArticlesPage.CategoryLabel | admin/articles.php:227 | the badge has no quote or angle bracket and decodes to the trimmed category name |
| ArticlesPage.UncategorizedLabel | admin/articles.php:227 | an article with no category shows "Uncategorized" |
| ArticlesPage.JoinNameIsCategoryName | admin/articles.php:41-43 | with category ids from 1 up, the joined name (or "Uncategorized") is what `getCategoryName` returns for the article |
| ArticlesPage.Present | admin/articles.php:203-229 | a listed row keeps the id, shows the snippet, and shows a title and badge free of quotes and angle brackets, the title decoding to the trimmed title and the badge being `CategoryLabel` of the row's category |
| ArticlesPage.DeleteRemovesOnlyItsImage | admin/articles.php:11-22 | a delete adds no article, leaves no row with the id, and removes no file but the deleted row's own image |
| ArticlesPage.DeleteArticle | admin/articles.php:8-37 | the `ArticleDeleted` effect: an exception changes nothing but the flash, and gives 500 or the error flash; otherwise exactly that row is removed, its file deleted only if the row existed with a non-empty image, and success is reported even for a missing id |
| ArticlesPage.HandleRequest | admin/articles.php:5-47 | not logged in: redirect, nothing changes; a POSTed delete has exactly its handler's effect on the articles, the files, the reply and the flash, so a failed non-AJAX delete shows the page with its error flash; a page that is shown leaves articles and files as they were and lists the final articles newest first with each row's title, snippet and badge, and consumes the flash message |
| FeedApi.Prefix | admin/api/get_articles.php:40 | `mb_substr` gives the first `min(n, length)` characters |
| FeedApi.ImageUrl | admin/api/get_articles.php:41 | the image URL is `SITE_URL . UPLOAD_URL` followed by the stored name |
| FeedApi.Project | admin/api/get_articles.php:35-48 | the record keeps id, title, content and timestamp. `short_description` is at most 100 characters of the stripped content plus "...". `image` is null iff the stored image is empty, otherwise SITE_URL + UPLOAD_URL + name. `category.id` is null when the join found none or the id is 0. `category.name` defaults to "Uncategorized" |
| FeedApi.ShortTextStillSuffixed | admin/api/get_articles.php:40 | short content still gets the suffix: "Hi" becomes "Hi..." |
| FeedApi.FeedOfListing | admin/api/get_articles.php:31-49 | projecting each row of the newest-first listing gives one record per article, newest first |
| FeedApi.GetArticles | admin/api/get_articles.php:10-64 | success iff connected and no exception, with `count` the number of records and the records the feed; otherwise 500 "Failed to fetch articles" with the exception text |
| DashboardPage.RecentOfListing | admin/index.php:12-18 | the first five rows of the newest-first listing are at most five distinct joined articles, newest first, none older than an article left out |
| DashboardPage.OmittedNotNewer | admin/index.php:12-18 | an article outside the first rows of a newest-first listing is no newer than any of them |
| DashboardPage.Dashboard | admin/index.php:5-20 | not logged in: redirect; otherwise the counts equal the table sizes, the recent list is `IsRecent`, each badge is the sanitized category name, and the flash message is consumed |

## Left out

- HTML, CSS and client-side JavaScript: presentation only. Only the values the page computes for display are modelled: rows, snippets, badges, the flash message.
- `admin/includes/db.php` is not part of this model.
  - Its calls are operations on maps.
  - Name comparison is exact string equality, because the table's collation is not visible.
- A database exception is modelled only as thrown by the first database call of a `try` block (the `fault` parameter):
  - the category insert and update (admin/categories.php:35, 81) and the count of a category delete (admin/categories.php:110);
  - the image lookup of an article delete (admin/articles.php:13);
  - the row update of the edit page (admin/edit_article.php:74);
  - the feed's list query (admin/api/get_articles.php:31).
- Later calls inside a `try` block are taken to succeed once the first has: the nulling update and the category delete (admin/categories.php:114, 118) and the article delete (admin/articles.php:16). Partial writes (references cleared, then the delete throws) are not modelled.
- Reads outside any `try` block are taken to succeed; in PHP an exception there ends the request with an error:
  - the name lookups (admin/categories.php:21, 68), the `get_category` fetch (admin/categories.php:140) and the category list (admin/categories.php:150-156);
  - the edit page's row fetch, dropdown query and category check (admin/edit_article.php:16, 25, 43);
  - the article list (admin/articles.php:40-45);
  - the dashboard's counts and recent list (admin/index.php:8-18).
- The page handlers start from tables satisfying `Database.Valid()` (category ids below the counter, unique names, resolvable references). Tables written by code outside the model (`add_article.php`, direct SQL) that break it are not covered.
- The `?logout` check at the end of each page (admin/categories.php:650-652, admin/articles.php:387-389, admin/edit_article.php:463-465, admin/index.php:292-294) is not part of the page handlers. It runs after the page has been rendered; the logout itself is `Functions.Session.LogoutUser`.
- `session_start`, `session_destroy`, `header`, `exit`, `http_response_code` and `json_encode` become fields of the `Session` class and a `Reply` value.
- `Functions.Session.LogoutUser`: clears the three session fields instead of destroying the PHP session.
- `uniqid()`, `time()` and `move_uploaded_file` are parameters of the upload. `mkdir` of the upload directory is not modelled.
- `formatDate`, `date()` and `strtotime()` are not modelled; `created_at` is an opaque integer.
  - The feed's `formatted_date` field is not modelled.
  - The creation time of a new category is a parameter.
- `Php.StripTags`: a simplified `strip_tags`. It drops NUL bytes, keeps a '<' followed by white space as text, drops every other `<…>` span and an unclosed tail. PHP's handling of comments, of quotes inside tags, of nested '<' depth and of `allowed_tags` is not modelled.
- `Php.Basename`: does not drop trailing slashes the way PHP's `basename` does ("a.jpg/" gives "a.jpg" in PHP, "" here). The name of an uploaded file reaches the code with its directory part already removed, so no such name occurs.
- `Php.EscapeHtml`: escapes the five ENT_QUOTES characters. Invalid UTF-8 (which PHP answers with an empty string) cannot occur in Dafny strings.
- `Functions.UploadDir.DeleteImage`: a stored-file set has no paths. A name containing `../` that reaches `deleteImage` would leave the upload directory in PHP; the model does not capture this.
- `(int)` casts of request fields are taken as integer inputs. The cast of the feed's `id` and `category_id` columns is the identity on integer columns.
- The edit page's category dropdown query (`ORDER BY name`) feeds only the form. It is not modelled.
- A request posting several category actions at once runs them in sequence in PHP. The model takes one action per request.
- Concurrent requests on the same rows are not modelled.
- `login.php` and `add_article.php` are not part of this model.
