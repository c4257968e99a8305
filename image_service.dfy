/** The upload checks of app/services/image_service.py: `validate_file`, a
    chain of guard clauses over an uploaded file, and `clean_filename`,
    which drops the "protected_" prefix that protected downloads carry. */
module ImageService {
  import opened Common

  /** The parts of an uploaded file the checks look at. The framework may
      leave the name, the declared content type or the size unset. */
  datatype UploadFile = UploadFile(filename: Option<string>, contentType: Option<string>, size: Option<nat>)

  const PngSuffix: string := ".png"
  const PngContentType: string := "image/png"
  const FileRequired: string := "파일이 필요합니다"
  const PngOnly: string := "PNG 형식만 지원합니다"

  function TooLargeDetail(maxFileSizeMb: nat): string
  {
    "파일 크기가 " + Decimal(maxFileSizeMb) + "MB를 초과합니다"
  }

  function MaxBytes(maxFileSizeMb: nat): nat
  {
    maxFileSizeMb * 1024 * 1024
  }

  /** `not file.filename or not file.filename.endswith(".png")` is false. */
  predicate NameAccepted(file: UploadFile)
  {
    file.filename.Some? && file.filename.value != "" && EndsWith(file.filename.value, PngSuffix)
  }

  predicate TypeAccepted(file: UploadFile)
  {
    file.contentType == Some(PngContentType)
  }

  /** The size check only applies to a truthy size: unset and 0 pass. */
  predicate SizeRefused(file: UploadFile, maxFileSizeMb: nat)
  {
    file.size.Some? && file.size.value != 0 && file.size.value > MaxBytes(maxFileSizeMb)
  }

  /** `validate_file`, with the configured `MAX_FILE_SIZE_MB`: presence,
      then name, then content type, then size; the first failing check
      decides the answer. */
  function ValidateFile(file: Option<UploadFile>, maxFileSizeMb: nat): (r: Outcome)
    ensures r == Pass <==>
              file.Some? && NameAccepted(file.value) && TypeAccepted(file.value) && !SizeRefused(file.value, maxFileSizeMb)
    ensures file.None? ==> r == Fail(Http(BadRequest, FileRequired))
    ensures file.Some? && !(NameAccepted(file.value) && TypeAccepted(file.value)) ==>
              r == Fail(Http(BadRequest, PngOnly))
    ensures file.Some? && NameAccepted(file.value) && TypeAccepted(file.value) && SizeRefused(file.value, maxFileSizeMb) ==>
              r == Fail(Http(PayloadTooLarge, TooLargeDetail(maxFileSizeMb)))
    ensures r.Fail? && r.failure.Http? && r.failure.status == PayloadTooLarge ==>
              file.Some? && NameAccepted(file.value) && TypeAccepted(file.value)
  {
    if file.None? then Fail(Http(BadRequest, FileRequired))
    else if !NameAccepted(file.value) then Fail(Http(BadRequest, PngOnly))
    else if !TypeAccepted(file.value) then Fail(Http(BadRequest, PngOnly))
    else if SizeRefused(file.value, maxFileSizeMb) then Fail(Http(PayloadTooLarge, TooLargeDetail(maxFileSizeMb)))
    else Pass
  }

  /** The size limit is inclusive: a file of exactly the limit passes and
      one byte more is refused with 413. */
  lemma SizeLimitInclusive(name: string, maxFileSizeMb: nat)
    requires maxFileSizeMb > 0 && EndsWith(name, PngSuffix)
    ensures ValidateFile(Some(UploadFile(Some(name), Some(PngContentType), Some(MaxBytes(maxFileSizeMb)))), maxFileSizeMb) == Pass
    ensures ValidateFile(Some(UploadFile(Some(name), Some(PngContentType), Some(MaxBytes(maxFileSizeMb) + 1))), maxFileSizeMb)
            == Fail(Http(PayloadTooLarge, TooLargeDetail(maxFileSizeMb)))
  {
  }

  const ProtectedPrefix: string := "protected_"

  /** `clean_filename`: drops exactly one leading "protected_"; other names
      (and an unset name) come back unchanged. */
  function CleanFilename(filename: Option<string>): (r: Option<string>)
    ensures r.None? <==> filename.None?
    ensures filename.Some? ==>
              && |r.value| == (if StartsWith(filename.value, ProtectedPrefix) then |filename.value| - 10 else |filename.value|)
              && r.value == filename.value[|filename.value| - |r.value|..]
  {
    if filename.Some? && filename.value != "" && StartsWith(filename.value, ProtectedPrefix) then
      Some(filename.value[10..])
    else filename
  }

  /** Cleaning undoes the protected-download prefix. */
  lemma CleanRemovesPrefix(name: string)
    ensures CleanFilename(Some(ProtectedPrefix + name)) == Some(name)
  {
    assert (ProtectedPrefix + name)[..|ProtectedPrefix|] == ProtectedPrefix;
    assert (ProtectedPrefix + name)[10..] == name;
  }

  /** Only one prefix is removed. */
  lemma CleanRemovesOnlyOnePrefix(name: string)
    ensures CleanFilename(Some(ProtectedPrefix + ProtectedPrefix + name)) == Some(ProtectedPrefix + name)
  {
    assert ProtectedPrefix + ProtectedPrefix + name == ProtectedPrefix + (ProtectedPrefix + name);
    CleanRemovesPrefix(ProtectedPrefix + name);
  }
}
