/** The helper layer every admin page includes (admin/includes/functions.php): the
    session (login state and the one-shot flash message), the upload directory, and the
    small text helpers. */
module Functions {
  import opened Php
  import opened Config
  import opened Database

  /** `$_SESSION['flash_message']`: a type ("success", "error") and a text. */
  datatype Flash = Flash(kind: string, message: string)

  /** What `$_SESSION['admin_logged_in']` may hold; only `Bool(true)` logs in. */
  datatype SessionValue = Bool(b: bool) | Int(i: int) | Text(s: string)

  /** A response that ends the request: a JSON body with its HTTP status code
      (`sendJsonResponse`), or a `Location:` redirect followed by `exit()`. */
  datatype Reply =
    | Json(code: int, status: string, message: string)
    | JsonCategory(id: int, category: Category)
    | Redirect(location: string)

  // ---------------------------------------------------------------- session

  /** The session of one browser. Starting and destroying the PHP session itself is not
      modelled; logging out clears these fields. */
  class Session {
    var loggedIn: Option<SessionValue>
    var username: Option<string>
    var flash: Option<Flash>

    constructor ()
      ensures loggedIn == None && username == None && flash == None
    {
      loggedIn, username, flash := None, None, None;
    }

    /** isLoggedIn(): the flag is set and is exactly the boolean true. */
    predicate IsLoggedIn()
      reads this
      ensures IsLoggedIn() ==> loggedIn != Some(Int(1)) && loggedIn != Some(Text("1"))
    {
      loggedIn.Some? && loggedIn.value == Bool(true)
    }

    /** requireLogin(): no redirect exactly when the flag is set and is boolean true; a
        truthy 1 or "1" still redirects to the login page. */
    method RequireLogin() returns (redirect: Option<Reply>)
      ensures redirect.None? <==> loggedIn == Some(Bool(true))
      ensures redirect.Some? ==> redirect.value == Redirect("login.php")
    {
      if IsLoggedIn() {
        redirect := None;
      } else {
        redirect := Some(Redirect("login.php"));
      }
    }

    /** loginUser(): both strings must equal the configured pair exactly. */
    method LoginUser(user: string, password: string) returns (ok: bool)
      modifies this
      ensures ok <==> user == AdminUsername && password == AdminPassword
      ensures ok ==> IsLoggedIn() && loggedIn == Some(Bool(true)) && username == Some(user)
      ensures !ok ==> loggedIn == old(loggedIn) && username == old(username)
      ensures flash == old(flash)
    {
      if user == AdminUsername && password == AdminPassword {
        loggedIn := Some(Bool(true));
        username := Some(user);
        return true;
      }
      return false;
    }

    /** logoutUser(): the session is cleared and the browser sent to the login page. */
    method LogoutUser() returns (reply: Reply)
      modifies this
      ensures !IsLoggedIn() && loggedIn == None && username == None && flash == None
      ensures reply == Redirect("login.php")
    {
      loggedIn, username, flash := None, None, None;
      reply := Redirect("login.php");
    }

    /** setFlashMessage(): replaces any pending message. */
    method SetFlashMessage(kind: string, message: string)
      modifies this
      ensures flash == Some(Flash(kind, message))
      ensures loggedIn == old(loggedIn) && username == old(username)
    {
      flash := Some(Flash(kind, message));
    }

    /** getFlashMessage(): hands out the pending message, if any, and clears it. */
    method GetFlashMessage() returns (m: Option<Flash>)
      modifies this
      ensures m == old(flash) && flash == None
      ensures loggedIn == old(loggedIn) && username == old(username)
    {
      m := flash;
      flash := None;
    }
  }

  /** The flash message is one-shot and the last one set wins: after two sets, the first
      read returns the second message and the next read returns nothing. */
  method FlashDeliveredOnce(session: Session, first: Flash, second: Flash) returns (read1: Option<Flash>, read2: Option<Flash>)
    modifies session
    ensures read1 == Some(second) && read2 == None
    ensures session.flash == None
  {
    session.SetFlashMessage(first.kind, first.message);
    session.SetFlashMessage(second.kind, second.message);
    read1 := session.GetFlashMessage();
    read2 := session.GetFlashMessage();
  }

  // ---------------------------------------------------------------- uploads

  /** An entry of `$_FILES` that arrived with UPLOAD_ERR_OK: the client's file name, the
      temporary file (absent or "" when nothing was received) and the size in bytes. */
  datatype UploadedFile = UploadedFile(name: string, tmpName: Option<string>, size: int)

  /** What the server supplies to uploadImage: `uniqid()`, `time()`, and whether
      `move_uploaded_file` succeeded. */
  datatype UploadEnv = UploadEnv(uniqId: string, now: nat, moved: bool)

  const NoFileMessage: string := "No file uploaded"
  const TooLargeMessage: string := "File size too large. Maximum size is " + Decimal(MaxFileSize / 1024 / 1024) + "MB"
  const BadTypeMessage: string := "Invalid file type. Allowed types: " + Implode(", ", AllowedExtensions)
  const MoveFailedMessage: string := "Failed to upload file"

  /** The size error, written out. */
  lemma TooLargeMessageText()
    ensures TooLargeMessage == "File size too large. Maximum size is 5MB"
  {
    assert MaxFileSize / 1024 / 1024 == 5;
  }

  /** The type error lists the allowed extensions, written out. */
  lemma BadTypeMessageText()
    ensures BadTypeMessage == "Invalid file type. Allowed types: " + "jpg, jpeg, png, gif, webp"
  {
    AllowedText();
  }

  lemma AllowedText()
    ensures Implode(", ", AllowedExtensions) == "jpg, jpeg, png, gif, webp"
  {
    AllowedTail();
    assert AllowedExtensions[1..] == ["jpeg", "png", "gif", "webp"];
  }

  lemma AllowedTail()
    ensures Implode(", ", ["jpeg", "png", "gif", "webp"]) == "jpeg, png, gif, webp"
  {
    AllowedLast();
    assert ["jpeg", "png", "gif", "webp"][1..] == ["png", "gif", "webp"];
  }

  lemma AllowedLast()
    ensures Implode(", ", ["png", "gif", "webp"]) == "png, gif, webp"
  {
    assert Implode(", ", ["webp"]) == "webp";
    assert Implode(", ", ["gif", "webp"]) == "gif, webp";
  }

  /** The three validation errors differ (by their first letter). */
  lemma CheckMessagesDistinct()
    ensures NoFileMessage != TooLargeMessage && NoFileMessage != BadTypeMessage && TooLargeMessage != BadTypeMessage
  {
    assert NoFileMessage[0] == 'N' && TooLargeMessage[0] == 'F' && BadTypeMessage[0] == 'I';
  }

  predicate HasTempFile(f: UploadedFile) {
    f.tmpName.Some? && !IsEmpty(f.tmpName.value)
  }

  /** `strtolower(pathinfo($file['name'], PATHINFO_EXTENSION))`. */
  function UploadExtension(f: UploadedFile): (ext: string)
    ensures forall i :: 0 <= i < |ext| ==> ext[i] != '.' && ext[i] != '/' && !('A' <= ext[i] <= 'Z')
  {
    Lower(Extension(f.name))
  }

  /** The checks of uploadImage, in the order the code makes them: a missing temporary
      file, then the size limit, then the extension allow-list. */
  function CheckUpload(f: UploadedFile): (r: Result<string>)
    ensures r == Err(NoFileMessage) <==> !HasTempFile(f)
    ensures r == Err(TooLargeMessage) <==> HasTempFile(f) && f.size > MaxFileSize
    ensures r == Err(BadTypeMessage) <==>
      HasTempFile(f) && f.size <= MaxFileSize && UploadExtension(f) !in AllowedExtensions
    ensures r.Ok? <==> HasTempFile(f) && f.size <= MaxFileSize && UploadExtension(f) in AllowedExtensions
    ensures r.Ok? ==> r.value == UploadExtension(f)
  {
    CheckMessagesDistinct();
    if !HasTempFile(f) then Err(NoFileMessage)
    else if f.size > MaxFileSize then Err(TooLargeMessage)
    else if UploadExtension(f) !in AllowedExtensions then Err(BadTypeMessage)
    else Ok(UploadExtension(f))
  }

  /** The name a stored upload gets: `uniqid() . '_' . time() . '.' . $ext`. */
  function StoredName(env: UploadEnv, ext: string): (name: string)
    ensures EndsWith(name, "." + ext)
  {
    var name := env.uniqId + "_" + Decimal(env.now) + "." + ext;
    assert name == (env.uniqId + "_" + Decimal(env.now)) + ("." + ext);
    name
  }

  /** What uploadImage returns or throws. */
  function UploadOutcome(f: UploadedFile, env: UploadEnv): (r: Result<string>)
    ensures r.Ok? <==> CheckUpload(f).Ok? && env.moved
    ensures r.Ok? ==> r.value == StoredName(env, UploadExtension(f))
    ensures r.Err? ==> r.message == if CheckUpload(f).Err? then CheckUpload(f).message else MoveFailedMessage
  {
    match CheckUpload(f)
    case Err(m) => Err(m)
    case Ok(ext) => if env.moved then Ok(StoredName(env, ext)) else Err(MoveFailedMessage)
  }

  /** The stored name keeps nothing of the client's name but the lower-cased extension:
      with a `uniqid()` free of '/', it has no '/' either, so it cannot leave the upload
      directory. */
  lemma StoredNameIsLocal(f: UploadedFile, env: UploadEnv)
    requires forall i :: 0 <= i < |env.uniqId| ==> env.uniqId[i] != '/'
    requires UploadOutcome(f, env).Ok?
    ensures var name := UploadOutcome(f, env).value;
      EndsWith(name, "." + UploadExtension(f)) &&
      forall i :: 0 <= i < |name| ==> name[i] != '/'
  {
    var ext := UploadExtension(f);
    var name := StoredName(env, ext);
    var e := Extension(f.name);
    assert forall i :: 0 <= i < |ext| ==> ext[i] == LowerChar(e[i]) && e[i] != '/';
    var digits := Decimal(env.now);
    assert name == env.uniqId + "_" + digits + "." + ext;
    forall i | 0 <= i < |name|
      ensures name[i] != '/'
    {
      if i < |env.uniqId| {
        assert name[i] == env.uniqId[i];
      } else if i == |env.uniqId| {
        assert name[i] == '_';
      } else if i < |env.uniqId| + 1 + |digits| {
        assert name[i] == digits[i - |env.uniqId| - 1];
      } else if i == |env.uniqId| + 1 + |digits| {
        assert name[i] == '.';
      } else {
        assert name[i] == ext[i - |env.uniqId| - 2 - |digits|];
      }
    }
  }

  /** An upper-case extension is accepted and lower-cased: "PHOTO.JPG" passes as "jpg". */
  lemma UpperCaseExtensionAccepted(tmp: string, size: int)
    requires !IsEmpty(tmp) && 0 <= size <= MaxFileSize
    ensures CheckUpload(UploadedFile("PHOTO.JPG", Some(tmp), size)) == Ok("jpg")
  {
    var f := UploadedFile("PHOTO.JPG", Some(tmp), size);
    PhotoExtension();
    assert UploadExtension(f) == "jpg";
    assert AllowedExtensions[0] == "jpg";
  }

  /** ... and the stored name of "PHOTO.JPG" ends in ".jpg". */
  lemma UpperCaseExtensionStored(tmp: string, size: int, env: UploadEnv)
    requires !IsEmpty(tmp) && 0 <= size <= MaxFileSize && env.moved
    ensures var r := UploadOutcome(UploadedFile("PHOTO.JPG", Some(tmp), size), env);
      r.Ok? && EndsWith(r.value, ".jpg")
  {
    var f := UploadedFile("PHOTO.JPG", Some(tmp), size);
    UpperCaseExtensionAccepted(tmp, size);
    PhotoExtension();
    assert UploadExtension(f) == "jpg";
    var r := UploadOutcome(f, env);
    assert r.Ok? && r.value == StoredName(env, "jpg");
    JpgSuffix();
  }

  lemma JpgSuffix()
    ensures "." + "jpg" == ".jpg"
  {
    assert ("." + "jpg")[0] == '.' && ("." + "jpg")[1..] == "jpg";
    assert ".jpg"[0] == '.' && ".jpg"[1..] == "jpg";
  }

  lemma PhotoExtension()
    ensures Lower(Extension("PHOTO.JPG")) == "jpg"
  {
    PhotoLastDot();
    assert "PHOTO.JPG"[6..] == "JPG";
    assert Extension("PHOTO.JPG") == "JPG";
    LowerJpg();
  }

  lemma PhotoLastDot()
    ensures Basename("PHOTO.JPG") == "PHOTO.JPG" && LastIndexOf("PHOTO.JPG", '.') == Some(5)
  {
    assert LastIndexOf("PHOTO.JPG", '/') == None;
    assert "PHOTO.JPG"[5] == '.';
    assert forall k :: 5 < k < 9 ==> "PHOTO.JPG"[k] != '.';
  }

  lemma LowerJpg()
    ensures Lower("JPG") == "jpg"
  {
    assert "JPG"[0] == 'J' && "JPG"[1] == 'P' && "JPG"[2] == 'G';
  }

  /** The upload directory: the names of the files stored in it. */
  class UploadDir {
    var files: set<string>

    constructor ()
      ensures files == {}
    {
      files := {};
    }

    /** uploadImage(): the checks in order, then the file is stored under a fresh name.
        Creating the directory is not modelled. */
    method UploadImage(f: UploadedFile, env: UploadEnv) returns (r: Result<string>)
      modifies this
      ensures r == UploadOutcome(f, env)
      ensures files == if r.Ok? then old(files) + {r.value} else old(files)
    {
      if f.tmpName.None? || IsEmpty(f.tmpName.value) {
        return Err(NoFileMessage);
      }
      if f.size > MaxFileSize {
        return Err(TooLargeMessage);
      }
      var ext := Lower(Extension(f.name));
      if ext !in AllowedExtensions {
        return Err(BadTypeMessage);
      }
      var name := env.uniqId + "_" + Decimal(env.now) + "." + ext;
      if !env.moved {
        return Err(MoveFailedMessage);
      }
      files := files + {name};
      return Ok(name);
    }

    /** deleteImage(): removes the file if it is there; a missing file is no error, so
        deleting twice is deleting once. */
    method DeleteImage(name: string)
      modifies this
      ensures files == old(files) - {name}
      ensures name !in old(files) ==> files == old(files)
    {
      if name in files {
        files := files - {name};
      }
    }
  }

  // ---------------------------------------------------------------- text helpers

  /** sanitize(): trim, then escape for HTML. No quote or angle bracket is left, and
      decoding gives back exactly the trimmed input. */
  function Sanitize(input: string): (r: string)
    ensures forall i :: 0 <= i < |r| ==> !IsHtmlSpecial(r[i])
    ensures UnescapeHtml(r) == Trim(input)
  {
    UnescapeEscape(Trim(input));
    EscapeHtml(Trim(input))
  }

  /** "..." as bytes. */
  const Ellipsis: seq<byte> := [46, 46, 46]

  /** truncateText(): `strlen` and `substr` count bytes. */
  function TruncateText(text: seq<byte>, length: nat): (r: seq<byte>)
    ensures |text| <= length ==> r == text
    ensures |text| > length ==> |r| == length + 3 && r[..length] == text[..length] && r[length..] == Ellipsis
  {
    if |text| <= length then text else text[..length] + Ellipsis
  }

  /** On ASCII text, cutting bytes is cutting characters. */
  lemma TruncateAscii(s: string, n: nat)
    requires IsAscii(s)
    ensures TruncateText(Utf8Encode(s), n) == Utf8Encode(if |s| <= n then s else s[..n] + "...")
  {
    Utf8Ascii(s);
    if |s| > n {
      Utf8AsciiPrefix(s, n);
      Utf8Concat(s[..n], "...");
      EllipsisBytes();
    }
  }

  lemma EllipsisBytes()
    ensures Utf8Encode("...") == Ellipsis
  {
    assert "..."[1..] == "..";
    assert ".."[1..] == ".";
    assert "."[1..] == "";
  }

  /** The bytes of an ASCII prefix are the prefix of the bytes. */
  lemma Utf8AsciiPrefix(s: string, n: nat)
    requires IsAscii(s) && n <= |s|
    ensures Utf8Encode(s)[..n] == Utf8Encode(s[..n])
  {
    assert s == s[..n] + s[n..];
    Utf8Concat(s[..n], s[n..]);
    assert IsAscii(s[..n]) by {
      forall i | 0 <= i < n
        ensures (s[..n][i] as int) < 0x80
      {
        assert s[..n][i] == s[i];
      }
    }
    Utf8Ascii(s[..n]);
  }

  /** On other text the byte cut can fall inside a character: 59 letters followed by "é"
      keep only the first byte (0xC3) of the "é" before the "...". */
  lemma TruncateSplitsCharacter()
    ensures var s := seq(59, _ => 'a') + "\U{E9}";
      var r := TruncateText(Utf8Encode(s), 60);
      |s| == 60 && |r| == 63 && r[59] == 0xC3 && r[60..] == Ellipsis
  {
    var a := seq(59, _ => 'a');
    var s := a + "\U{E9}";
    Utf8Concat(a, "\U{E9}");
    Utf8Ascii(a);
    assert Utf8Char('\U{E9}') == [0xC3, 0xA9];
    assert Utf8Encode("\U{E9}") == [0xC3, 0xA9];
    assert |Utf8Encode(s)| == 61;
    assert Utf8Encode(s)[59] == 0xC3;
  }

  /** getCategoryName(): "Uncategorized" for a missing or zero id and for an id with no
      row; the row's name otherwise. */
  function GetCategoryName(categoryId: Option<int>, categories: Categories): (r: string)
    ensures categoryId.None? || categoryId.value == 0 || categoryId.value !in categories ==> r == "Uncategorized"
    ensures categoryId.Some? && categoryId.value != 0 && categoryId.value in categories ==>
      r == categories[categoryId.value].name
  {
    if categoryId.None? || categoryId.value == 0 then "Uncategorized"
    else if categoryId.value in categories then categories[categoryId.value].name
    else "Uncategorized"
  }
}
