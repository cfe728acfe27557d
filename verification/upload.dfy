/** Image upload, serving and deletion (backend/app/api/upload.py). */
module Upload {
  import opened Common
  import opened FileStore

  const AllowedExtensions: set<string> := {".jpg", ".jpeg", ".png", ".gif", ".webp", ".svg"}

  /** Ten mebibytes. */
  const MaxFileSize := 10 * 1024 * 1024

  /** Public base of every stored image's URL. */
  const PublicImageBase := "http://localhost:8000/api/upload/images/"

  /** The fixed start of the 400 for a disallowed type; the allowed extensions follow,
      in the order the process happens to iterate its set. */
  const DisallowedTypePrefix := "Tipo de archivo no permitido. Solo se permiten: "
  /** The size message gives the limit in whole mebibytes, `MAX_FILE_SIZE // (1024*1024)`. */
  const FileTooLarge := "El archivo es demasiado grande. Máximo " + DecimalText(MaxFileSize / (1024 * 1024)) + "MB"
  const ImageNotFound := "Imagen no encontrada"
  const AccessDenied := "Acceso denegado"
  /** The fixed start of the 500 for a failed write; the exception text follows. */
  const UploadFailedPrefix := "Error al subir archivo: "
  const ImageDeleted := "Imagen eliminada"

  /** The decimal digit `d`. */
  function Digit(d: nat): (c: char)
    requires d < 10
    ensures '0' <= c <= '9' && c as int - '0' as int == d
  {
    (d + '0' as int) as char
  }

  /** The number a string of decimal digits spells, most significant digit first. */
  function DecimalValue(s: string): nat
    requires forall k :: 0 <= k < |s| ==> '0' <= s[k] <= '9'
  {
    if |s| == 0 then 0 else DecimalValue(s[..|s| - 1]) * 10 + (s[|s| - 1] as int - '0' as int)
  }

  /** `str(n)` for a natural number: its decimal digits, most significant first,
      without leading zeros. */
  function DecimalText(n: nat): (s: string)
    ensures |s| > 0 && forall k :: 0 <= k < |s| ==> '0' <= s[k] <= '9'
    ensures |s| == 1 <==> n < 10
    ensures s[0] == '0' <==> n == 0
    ensures DecimalValue(s) == n
    decreases n
  {
    if n < 10 then
      var s := [Digit(n)];
      assert s[..0] == [];
      s
    else
      var s := DecimalText(n / 10) + [Digit(n % 10)];
      assert s[..|s| - 1] == DecimalText(n / 10);
      s
  }

  /** The size message reads "Máximo 10MB". */
  lemma TooLargeMessageFigure()
    ensures FileTooLarge == "El archivo es demasiado grande. Máximo 10MB"
  {
    assert MaxFileSize / (1024 * 1024) == 10;
    assert DecimalText(10) == DecimalText(1) + [Digit(0)];
  }

  // ---------------------------------------------------------------------------
  // Extensions

  /** Some character of `p[lo..hi]` is not a dot. */
  predicate HasNonDot(p: string, lo: int, hi: int)
    requires 0 <= lo && hi <= |p|
  {
    exists k :: lo <= k < hi && p[k] != '.'
  }

  /** `posixpath.splitext`: the extension is everything from the last dot of the last
      path component, unless only dots precede that dot in the component (so a leading
      dot, as in `.png`, starts no extension). */
  function SplitExt(p: string): (r: (string, string))
    ensures r.0 + r.1 == p
    ensures r.1 != "" ==> r.1[0] == '.' && '/' !in r.1 && '.' !in r.1[1..]
    ensures r.1 != "" ==> HasNonDot(p, LastIndexOf(p, '/') + 1, |r.0|)
    ensures r.1 != "" <==>
      LastIndexOf(p, '.') > LastIndexOf(p, '/') && HasNonDot(p, LastIndexOf(p, '/') + 1, LastIndexOf(p, '.'))
    ensures r.1 != "" ==> |r.0| == LastIndexOf(p, '.')
  {
    var sep := LastIndexOf(p, '/');
    var dot := LastIndexOf(p, '.');
    if dot > sep && HasNonDot(p, sep + 1, dot) then
      assert p[..dot] + p[dot..] == p;
      assert forall k :: 0 <= k < |p[dot..]| ==> p[dot..][k] == p[dot + k];
      (p[..dot], p[dot..])
    else
      (p, "")
  }

  /** `os.path.splitext(filename)[1].lower()`. */
  function Extension(filename: string): (ext: string)
    ensures |ext| == |SplitExt(filename).1|
    ensures forall k :: 0 <= k < |ext| ==> ext[k] == LowerChar(SplitExt(filename).1[k])
  {
    Lower(SplitExt(filename).1)
  }

  /** An extension token: a dot followed by neither dots nor slashes. */
  predicate IsExtensionToken(ext: string) {
    |ext| > 0 && ext[0] == '.' && forall k :: 1 <= k < |ext| ==> ext[k] != '.' && ext[k] != '/'
  }

  /** Every allowed extension is a lower-case extension token. */
  lemma AllowedAreLowerTokens(ext: string)
    requires ext in AllowedExtensions
    ensures IsExtensionToken(ext)
    ensures Lower(ext) == ext
  {
    assert forall k :: 0 <= k < |ext| ==> !('A' <= ext[k] <= 'Z') && ext[k] != '/' && (k > 0 ==> ext[k] != '.');
  }

  /** An extension token appended to a slash-free stem with some non-dot character is
      exactly what `splitext` splits off again. */
  lemma SplitExtOfStem(stem: string, ext: string)
    requires '/' !in stem
    requires exists k :: 0 <= k < |stem| && stem[k] != '.'
    requires IsExtensionToken(ext)
    ensures SplitExt(stem + ext) == (stem, ext)
  {
    var p := stem + ext;
    forall k | |stem| < k < |p| ensures p[k] != '.' && p[k] != '/' {
      assert p[k] == ext[k - |stem|];
    }
    LastIndexOfIs(p, '.', |stem|);
    forall k | 0 <= k < |stem| ensures p[k] != '/' {
      assert p[k] == stem[k];
    }
    LastIndexOfIs(p, '/', -1);
    var k :| 0 <= k < |stem| && stem[k] != '.';
    assert p[k] != '.';
    assert HasNonDot(p, 0, |stem|);
    assert p[..|stem|] == stem && p[|stem|..] == ext;
  }

  /** An allowed extension appended to such a stem is what `Extension` reads back. */
  lemma ExtensionOfStem(stem: string, ext: string)
    requires '/' !in stem
    requires exists k :: 0 <= k < |stem| && stem[k] != '.'
    requires ext in AllowedExtensions
    ensures SplitExt(stem + ext) == (stem, ext)
    ensures Extension(stem + ext) == ext
  {
    AllowedAreLowerTokens(ext);
    SplitExtOfStem(stem, ext);
  }

  /** A file named only by its extension (`.png`) has no extension. */
  lemma DotfileHasNoExtension()
    ensures Extension(".png") == ""
  {
    var p := ".png";
    assert p[1] == 'p' && p[2] == 'n' && p[3] == 'g';
    LastIndexOfIs(p, '/', -1);
    LastIndexOfIs(p, '.', 0);
    assert !HasNonDot(".png", 0, 0);
  }

  /** The check ignores case: `photo.PNG` is accepted as `.png`. */
  lemma UpperCaseExtensionAccepted()
    ensures Extension("photo.PNG") == ".png"
  {
    var p := "photo.PNG";
    assert p[0] == 'p' && p[1] == 'h' && p[2] == 'o' && p[3] == 't' && p[4] == 'o';
    assert p[5] == '.' && p[6] == 'P' && p[7] == 'N' && p[8] == 'G';
    LastIndexOfIs(p, '/', -1);
    LastIndexOfIs(p, '.', 5);
    assert p[0] != '.';
    assert HasNonDot(p, 0, 5);
    assert SplitExt(p).1 == ".PNG";
  }

  // ---------------------------------------------------------------------------
  // Validation and upload

  /** `validate_file`: the extension is checked first, then the size (which may be
      exactly the maximum). */
  function ValidateFile(filename: string, size: nat, allowedListing: string): (r: Result<()>)
    ensures Extension(filename) !in AllowedExtensions ==> r == Err(BadRequest, DisallowedTypePrefix + allowedListing)
    ensures Extension(filename) in AllowedExtensions && size > MaxFileSize ==> r == Err(BadRequest, FileTooLarge)
    ensures r.Ok? <==> Extension(filename) in AllowedExtensions && size <= MaxFileSize
  {
    if Extension(filename) !in AllowedExtensions then Err(BadRequest, DisallowedTypePrefix + allowedListing)
    else if size > MaxFileSize then Err(BadRequest, FileTooLarge)
    else Ok(())
  }

  /** `datetime.now().strftime('%Y%m%d')`: eight decimal digits. */
  predicate IsDayStamp(s: string) {
    |s| == 8 && forall k :: 0 <= k < 8 ==> '0' <= s[k] <= '9'
  }

  predicate IsHexDigit(c: char) {
    '0' <= c <= '9' || 'a' <= c <= 'f'
  }

  /** `str(uuid.uuid4())`: 36 characters, lower-case hex with hyphens at 8, 13, 18, 23. */
  predicate IsUuidText(s: string) {
    && |s| == 36
    && forall k :: 0 <= k < 36 ==> if k in {8, 13, 18, 23} then s[k] == '-' else IsHexDigit(s[k])
  }

  /** The response of a successful upload. */
  datatype Uploaded = Uploaded(success: bool, imageUrl: string, filename: string, size: nat)

  /** The stored name: day stamp, `_`, the uuid, then the lower-cased extension. */
  function UniqueFilename(day: string, token: string, ext: string): (name: string)
    requires IsDayStamp(day) && IsUuidText(token)
    ensures name == day + "_" + token + ext
    ensures ext in AllowedExtensions ==> '/' !in name && Extension(name) == ext
  {
    var stem := day + "_" + token;
    assert '/' !in stem by {
      forall k | 0 <= k < |stem| ensures stem[k] != '/' {
        if k < 8 {
          assert stem[k] == day[k];
        } else if k > 8 {
          assert stem[k] == token[k - 9];
        }
      }
    }
    assert stem[0] == day[0];
    if ext in AllowedExtensions then
      ExtensionOfStem(stem, ext);
      assert '/' !in ext;
      assert forall k :: |stem| <= k < |stem + ext| ==> (stem + ext)[k] == ext[k - |stem|];
      stem + ext
    else
      stem + ext
  }

  /** `upload_image`: validation errors are returned as they are; a write that cannot
      happen (the upload directory missing, or the target a directory) is 500; otherwise
      the file is written under its generated name and its public URL returned. The
      day stamp and the uuid are the clock's and the generator's outputs. */
  function UploadImage(fs: FileSystem, filename: string, size: nat, allowedListing: string,
                       day: string, token: string): (r: (FileSystem, Result<Uploaded>))
    requires Valid(fs)
    requires IsDayStamp(day) && IsUuidText(token)
    ensures Valid(r.0)
    ensures ValidateFile(filename, size, allowedListing).Err? ==>
      r.0 == fs && r.1.Err? && r.1.status == BadRequest && r.1.detail == ValidateFile(filename, size, allowedListing).detail
    ensures r.1.Err? ==> r.0 == fs
    ensures r.1.Ok? ==>
      var name := UniqueFilename(day, token, Extension(filename));
      && ValidateFile(filename, size, allowedListing).Ok?
      && r.1.value == Uploaded(true, PublicImageBase + name, name, size)
      && r.0 == WriteFile(fs, UploadDir + "/" + name)
      && '/' !in name && Extension(name) == Extension(filename)
    ensures ValidateFile(filename, size, allowedListing).Ok? && WritableTarget(fs, UploadDir + "/" + UniqueFilename(day, token, Extension(filename))) ==> r.1.Ok?
    ensures ValidateFile(filename, size, allowedListing).Ok? && !WritableTarget(fs, UploadDir + "/" + UniqueFilename(day, token, Extension(filename))) ==>
      r == (fs, Err(InternalError, UploadFailedPrefix))
  {
    match ValidateFile(filename, size, allowedListing)
    case Err(status, detail) => (fs, Err(status, detail))
    case Ok(_) =>
      var name := UniqueFilename(day, token, Extension(filename));
      var path := JoinUploadDir(name);
      assert name[0] == day[0];
      if !WritableTarget(fs, path) then (fs, Err(InternalError, UploadFailedPrefix))
      else (WriteFile(fs, path), Ok(Uploaded(true, PublicImageBase + name, name, size)))
  }

  /** `open(path, "wb")` succeeds: the upload directory is a directory and the target
      is not one. */
  predicate WritableTarget(fs: FileSystem, path: string) {
    && Exists(fs, UploadDir) && !IsFile(fs, UploadDir)
    && !(Exists(fs, path) && !IsFile(fs, path))
  }

  // ---------------------------------------------------------------------------
  // Serving and deleting

  /** The checks `get_image` and `delete_image` share: the joined path must exist (404),
      and must be a regular file whose normalised path starts with the normalised
      upload directory (403). `absPath` is `os.path.abspath`. */
  function Locate(fs: FileSystem, filename: string, absPath: string -> string): (r: Result<string>)
    ensures !Exists(fs, JoinUploadDir(filename)) ==> r == Err(NotFound, ImageNotFound)
    ensures Exists(fs, JoinUploadDir(filename)) && !(IsFile(fs, JoinUploadDir(filename)) && StartsWith(absPath(JoinUploadDir(filename)), absPath(UploadDir))) ==>
      r == Err(Forbidden, AccessDenied)
    ensures r.Ok? <==> IsFile(fs, JoinUploadDir(filename)) && Exists(fs, JoinUploadDir(filename))
                        && StartsWith(absPath(JoinUploadDir(filename)), absPath(UploadDir))
    ensures r.Ok? ==> r.value == JoinUploadDir(filename)
  {
    var path := JoinUploadDir(filename);
    if !Exists(fs, path) then Err(NotFound, ImageNotFound)
    else if !IsFile(fs, path) || !StartsWith(absPath(path), absPath(UploadDir)) then Err(Forbidden, AccessDenied)
    else Ok(path)
  }

  /** `get_image`: the path of the file to send. */
  function GetImage(fs: FileSystem, filename: string, absPath: string -> string): (r: Result<string>)
    requires Valid(fs)
    ensures r.Ok? ==> IsFile(fs, r.value) && r.value == JoinUploadDir(filename)
    ensures r.Ok? ==> StartsWith(absPath(r.value), absPath(UploadDir))
    ensures r.Err? ==> r.status == NotFound || r.status == Forbidden
    ensures r.Err? && r.status == NotFound <==> !Exists(fs, JoinUploadDir(filename))
    ensures r.Err? && r.status == Forbidden <==>
      Exists(fs, JoinUploadDir(filename)) && !(IsFile(fs, JoinUploadDir(filename)) && StartsWith(absPath(JoinUploadDir(filename)), absPath(UploadDir)))
    ensures r.Err? ==> r.detail == if r.status == NotFound then ImageNotFound else AccessDenied
  {
    Locate(fs, filename, absPath)
  }

  /** `delete_image`: after the same checks, removes exactly that file. */
  function DeleteImage(fs: FileSystem, filename: string, absPath: string -> string): (r: (FileSystem, Result<string>))
    requires Valid(fs)
    ensures Valid(r.0)
    ensures r.1.Err? ==> var l := Locate(fs, filename, absPath);
      r.0 == fs && l.Err? && r.1.status == l.status && r.1.detail == l.detail
    ensures r.1.Ok? <==> Locate(fs, filename, absPath).Ok?
    ensures r.1.Ok? ==> r.1.value == ImageDeleted && r.0 == RemoveFile(fs, JoinUploadDir(filename))
  {
    match Locate(fs, filename, absPath)
    case Err(status, detail) => (fs, Err(status, detail))
    case Ok(path) => (RemoveFile(fs, path), Ok(ImageDeleted))
  }

  // ---------------------------------------------------------------------------
  // How the endpoints relate

  /** An uploaded image is served back under its returned name, provided that
      normalisation keeps it inside the upload directory. */
  lemma UploadThenGet(fs: FileSystem, filename: string, size: nat, allowedListing: string,
                      day: string, token: string, absPath: string -> string)
    requires Valid(fs)
    requires IsDayStamp(day) && IsUuidText(token)
    requires UploadImage(fs, filename, size, allowedListing, day, token).1.Ok?
    requires var name := UploadImage(fs, filename, size, allowedListing, day, token).1.value.filename;
      StartsWith(absPath(UploadDir + "/" + name), absPath(UploadDir))
    ensures var up := UploadImage(fs, filename, size, allowedListing, day, token);
      GetImage(up.0, up.1.value.filename, absPath) == Ok(UploadDir + "/" + up.1.value.filename)
  {
    var up := UploadImage(fs, filename, size, allowedListing, day, token);
    var name := up.1.value.filename;
    assert name[0] == day[0];
  }

  /** A deleted image is not found afterwards, whatever normalisation does. */
  lemma DeleteThenGetNotFound(fs: FileSystem, filename: string, absPath: string -> string)
    requires Valid(fs)
    requires DeleteImage(fs, filename, absPath).1.Ok?
    ensures GetImage(DeleteImage(fs, filename, absPath).0, filename, absPath) == Err(NotFound, ImageNotFound)
  {
  }
}
