/** The older router in api.py: its own file check, and the upload endpoint,
    which stores the same bytes under four names in the image's directory.
    The token guard it calls (`get_userid_bytoken`) is the same code as
    `AuthService.get_user_id_from_token` and is modelled by
    `Auth.UserIdFromToken`. Inserting the database row is outside the
    model: the endpoint receives the id that insert returned. */
module Api {
  import opened Common
  import ImageService
  import Auth
  import Storage

  const MaxUploadBytes: nat := 10 * 1024 * 1024
  const FileIsRequired: string := "File is required"
  const OnlyPng: string := "Only PNG files are allowed"
  const TooLarge: string := "File size exceeds 10MB limit"

  /** `validate_file` of api.py. Unlike the service's check it calls
      `.endswith` and `>` on fields without testing them first, so an unset
      name or size raises (`AttributeError`, `TypeError`) instead of being
      refused, and an oversized file is a 400, not a 413. */
  function ValidateFile(file: Option<ImageService.UploadFile>): (r: Outcome)
    ensures r == Pass <==>
              && file.Some? && file.value.filename.Some? && file.value.size.Some?
              && EndsWith(file.value.filename.value, ".png")
              && file.value.contentType == Some("image/png")
              && file.value.size.value <= MaxUploadBytes
    ensures file.None? ==> r == Fail(Http(BadRequest, FileIsRequired))
    ensures file.Some? && file.value.filename.None? ==> r == Fail(Unhandled("AttributeError"))
    ensures file.Some? && file.value.filename.Some?
            && (!EndsWith(file.value.filename.value, ".png") || file.value.contentType != Some("image/png")) ==>
              r == Fail(Http(BadRequest, OnlyPng))
    ensures file.Some? && file.value.filename.Some? && EndsWith(file.value.filename.value, ".png")
            && file.value.contentType == Some("image/png") ==>
              && (file.value.size.None? ==> r == Fail(Unhandled("TypeError")))
              && (file.value.size.Some? && file.value.size.value > MaxUploadBytes ==> r == Fail(Http(BadRequest, TooLarge)))
    ensures r.Fail? && r.failure.Http? ==> r.failure.status == BadRequest
  {
    if file.None? then Fail(Http(BadRequest, FileIsRequired))
    else
      var f := file.value;
      if f.filename.None? then Fail(Unhandled("AttributeError"))
      else if !EndsWith(f.filename.value, ".png") then Fail(Http(BadRequest, OnlyPng))
      else if f.contentType != Some("image/png") then Fail(Http(BadRequest, OnlyPng))
      else if f.size.None? then Fail(Unhandled("TypeError"))
      else if f.size.value > MaxUploadBytes then Fail(Http(BadRequest, TooLarge))
      else Pass
  }

  /** On files whose name and size are set, the two checks accept the same
      files when the service's limit is 10 MB; they differ only in how
      they refuse an oversized file. */
  lemma ValidatorsAgree(f: ImageService.UploadFile)
    requires f.filename.Some? && f.size.Some?
    ensures ValidateFile(Some(f)) == Pass <==> ImageService.ValidateFile(Some(f), 10) == Pass
    ensures f.size.value > MaxUploadBytes && ImageService.NameAccepted(f) && ImageService.TypeAccepted(f) ==>
              && ValidateFile(Some(f)) == Fail(Http(BadRequest, TooLarge))
              && ImageService.ValidateFile(Some(f), 10).failure.status == PayloadTooLarge
  {
    if f.filename.value == "" {
      assert !EndsWith(f.filename.value, ".png");
    }
  }

  /** A file of exactly 10 MiB passes; one more byte is refused. */
  lemma UploadLimitInclusive(name: string)
    requires EndsWith(name, ".png")
    ensures ValidateFile(Some(ImageService.UploadFile(Some(name), Some("image/png"), Some(10485760)))) == Pass
    ensures ValidateFile(Some(ImageService.UploadFile(Some(name), Some("image/png"), Some(10485761))))
            == Fail(Http(BadRequest, TooLarge))
  {
  }

  const UploadNames: seq<string> := ["gt.png", "lr.png", "sr.png", "sr_h.png"]

  /** The four object names the upload endpoint writes, in order. */
  function UploadPaths(idx: nat): (paths: seq<string>)
    ensures |paths| == 4
    ensures forall i :: 0 <= i < 4 ==> paths[i] == "/" + Decimal(idx) + "/" + UploadNames[i]
    ensures forall i, j :: 0 <= i < j < 4 ==> paths[i] != paths[j]
  {
    var dir := "/" + Decimal(idx) + "/";
    var paths := [dir + "gt.png", dir + "lr.png", dir + "sr.png", dir + "sr_h.png"];
    assert paths[0][|dir|] == 'g' && paths[1][|dir|] == 'l';
    assert paths[2][|dir|] == 's' && paths[3][|dir|] == 's';
    assert |paths[2]| != |paths[3]|;
    paths
  }

  /** These objects are not where the storage service looks: its paths
      start with "image/", these with "/". */
  lemma UploadPathsOutsideImageDir(idx: nat, imageId: nat, filename: Option<string>)
    ensures forall i, j :: 0 <= i < 4 && 0 <= j < 2 ==> UploadPaths(idx)[i] != Storage.ImagePaths(imageId, filename)[j]
  {
    forall i, j | 0 <= i < 4 && 0 <= j < 2
      ensures UploadPaths(idx)[i] != Storage.ImagePaths(imageId, filename)[j]
    {
      var p := Storage.ImagePaths(imageId, filename)[j];
      assert p[0] == Storage.ImageDir(imageId)[0] == 'i';
      assert UploadPaths(idx)[i][0] == '/';
    }
  }

  /** `upload`: the token guard, the file check, then the same bytes at
      the four paths, in order. The first put the bucket refuses ends the
      loop with a 500 whose detail is the backend's error text alone;
      nothing written before it is removed. The loop is the storage
      service's `upload_multiple_files`, which differs only in the detail. */
  method Upload(store: Storage.BlobStore, token: Option<string>, decode: string -> Auth.TokenPayload,
                file: Option<ImageService.UploadFile>, idx: nat, contents: Storage.Bytes,
                refused: set<string>, errorText: string)
    returns (r: Outcome)
    modifies store
    ensures Auth.UserIdFromToken(token, decode).Err? ==>
              r == Fail(Auth.UserIdFromToken(token, decode).failure) && unchanged(store)
    ensures Auth.UserIdFromToken(token, decode).Ok? && ValidateFile(file).Fail? ==>
              r == ValidateFile(file) && unchanged(store)
    ensures Auth.UserIdFromToken(token, decode).Ok? && ValidateFile(file) == Pass ==>
              var paths := UploadPaths(idx);
              var k := Storage.FirstRefused(paths, refused);
              && store.log == old(store.log) + Storage.Puts(paths[..if k < |paths| then k + 1 else k])
              && store.blobs == Storage.WriteAll(old(store.blobs), paths[..k], contents)
              && (r == if k == |paths| then Pass else Fail(Http(InternalServerError, errorText)))
  {
    var user := Auth.UserIdFromToken(token, decode);
    if user.Err? {
      return Fail(user.failure);
    }
    var check := ValidateFile(file);
    if check.Fail? {
      return check;
    }
    var stored := store.UploadMultipleFiles(contents, UploadPaths(idx), refused, errorText);
    r := if stored.Fail? then Fail(Http(InternalServerError, errorText)) else Pass;
  }
}
