/** The blob-storage conventions of app/services/storage_service.py: where
    an image's two copies and a validation record's files live in the
    bucket, and the upload and delete loops over lists of paths.

    The bucket is a map from path to bytes. Whether the storage backend
    accepts a particular put or delete is decided outside the service, so
    the methods take the set of paths the backend refuses as a parameter.
    `log` records the requests sent to the backend, in order. */
module Storage {
  import opened Common

  type Bytes = seq<bv8>

  datatype Request = Put(path: string) | Delete(path: string)

  /** The detail of the 500 is this prefix followed by the backend's
      error text. */
  const UploadFailedPrefix: string := "S3 파일 업로드 중 오류가 발생했습니다: "

  function UploadFailed(errorText: string): Failure
  {
    Http(InternalServerError, UploadFailedPrefix + errorText)
  }

  /** `filename.rsplit('.', 1)[0] if '.' in filename else filename`: the
      name up to (not including) its last dot. */
  function Stem(filename: string): (stem: string)
    ensures !Contains(filename, '.') ==> stem == filename
    ensures Contains(filename, '.') ==>
              && |stem| < |filename|
              && filename[..|stem|] == stem
              && filename[|stem|] == '.'
              && !Contains(filename[|stem| + 1..], '.')
  {
    match LastIndexOf(filename, '.')
    case None => filename
    case Some(k) =>
      filename[..k]
  }

  /** Splitting off the extension and putting it back gives the name again. */
  lemma StemThenExtension(name: string, ext: string)
    requires !Contains(ext, '.')
    ensures Stem(name + "." + ext) == name
  {
    var f := name + "." + ext;
    assert f[|name|] == '.';
    var stem := Stem(f);
    if |stem| != |name| {
      assert false;
    }
  }

  /** The filename argument is truthy: None and "" select the legacy names. */
  predicate HasFilename(filename: Option<string>)
  {
    filename.Some? && filename.value != ""
  }

  /** The names of the pristine and the watermarked copy inside an image's
      directory. */
  function CopyNames(filename: Option<string>): (names: (string, string))
  {
    if HasFilename(filename) then
      var stem := Stem(filename.value);
      (stem + "_origi.png", stem + "_wm.png")
    else ("gt.png", "sr_h.png")
  }

  function ImageDir(imageId: nat): string
  {
    "image/" + Decimal(imageId) + "/"
  }

  lemma CopyPathsShape(dir: string, filename: Option<string>)
    ensures var names := CopyNames(filename);
            var p0, p1 := dir + names.0, dir + names.1;
            && p0 != p1 && StartsWith(p0, dir) && StartsWith(p1, dir)
            && (HasFilename(filename) ==> EndsWith(p0, "_origi.png") && EndsWith(p1, "_wm.png"))
  {
    var names := CopyNames(filename);
    var p0, p1 := dir + names.0, dir + names.1;
    assert p0[..|dir|] == dir && p1[..|dir|] == dir;
    if HasFilename(filename) {
      var stem := Stem(filename.value);
      assert p0[|dir| + |stem|..] == "_origi.png" && p1[|dir| + |stem|..] == "_wm.png";
      assert p0[|p0| - 10..] == "_origi.png" && p1[|p1| - 7..] == "_wm.png";
      assert p0[|dir| + |stem| + 1] != p1[|dir| + |stem| + 1];
    } else {
      assert p0[|dir|] != p1[|dir|];
    }
  }

  /** `get_image_paths`: the pristine copy's path, then the watermarked one's. */
  function ImagePaths(imageId: nat, filename: Option<string>): (paths: seq<string>)
    ensures |paths| == 2 && paths[0] != paths[1]
    ensures forall k :: 0 <= k < 2 ==> StartsWith(paths[k], ImageDir(imageId))
    ensures HasFilename(filename) ==>
              && EndsWith(paths[0], "_origi.png") && EndsWith(paths[1], "_wm.png")
              && paths == [ImageDir(imageId) + Stem(filename.value) + "_origi.png",
                           ImageDir(imageId) + Stem(filename.value) + "_wm.png"]
    ensures !HasFilename(filename) ==>
              paths == [ImageDir(imageId) + "gt.png", ImageDir(imageId) + "sr_h.png"]
  {
    var names := CopyNames(filename);
    var dir := ImageDir(imageId);
    var p0, p1 := dir + names.0, dir + names.1;
    CopyPathsShape(dir, filename);
    assert HasFilename(filename) ==>
             p0 == dir + Stem(filename.value) + "_origi.png" && p1 == dir + Stem(filename.value) + "_wm.png";
    [p0, p1]
  }

  /** The URLs handed to clients, keyed "gt" (pristine) and "sr_h" (watermarked). */
  datatype ImageUrls = ImageUrls(gt: string, srH: string)

  /** `get_image_urls`, under the configured public image directory `imageDir`. */
  function GetImageUrls(imageDir: string, imageId: nat, filename: Option<string>): (urls: ImageUrls)
    ensures HasFilename(filename) ==>
              && urls.gt == imageDir + "/" + Decimal(imageId) + "/" + Stem(filename.value) + "_origi.png"
              && urls.srH == imageDir + "/" + Decimal(imageId) + "/" + Stem(filename.value) + "_wm.png"
    ensures !HasFilename(filename) ==>
              urls == ImageUrls(imageDir + "/" + Decimal(imageId) + "/gt.png", imageDir + "/" + Decimal(imageId) + "/sr_h.png")
  {
    var names := CopyNames(filename);
    ImageUrls(imageDir + "/" + Decimal(imageId) + "/" + names.0,
              imageDir + "/" + Decimal(imageId) + "/" + names.1)
  }

  /** The URLs name the same two objects as the bucket paths: each URL is
      the public directory followed by the path's part after "image/". */
  lemma UrlsMirrorPaths(imageDir: string, imageId: nat, filename: Option<string>)
    ensures var paths, urls := ImagePaths(imageId, filename), GetImageUrls(imageDir, imageId, filename);
            && paths[0] == "image/" + paths[0][6..] && urls.gt == imageDir + "/" + paths[0][6..]
            && paths[1] == "image/" + paths[1][6..] && urls.srH == imageDir + "/" + paths[1][6..]
  {
    var names := CopyNames(filename);
    MirrorOne(imageDir, imageId, names.0);
    MirrorOne(imageDir, imageId, names.1);
  }

  lemma MirrorOne(imageDir: string, imageId: nat, name: string)
    ensures var p := ImageDir(imageId) + name;
            && p == "image/" + p[6..]
            && imageDir + "/" + Decimal(imageId) + "/" + name == imageDir + "/" + p[6..]
  {
    var tail := Decimal(imageId) + "/" + name;
    var p := ImageDir(imageId) + name;
    assert p == "image/" + tail;
    assert p[6..] == tail;
    assert imageDir + "/" + Decimal(imageId) + "/" + name == imageDir + "/" + tail;
  }

  lemma SameDirSameImage(a: nat, b: nat, x: string, y: string)
    requires ImageDir(a) + x == ImageDir(b) + y
    ensures a == b
  {
    var da, db := Decimal(a), Decimal(b);
    assert ImageDir(a) + x == "image/" + (da + "/" + x);
    assert ImageDir(b) + y == "image/" + (db + "/" + y);
    var s := ImageDir(a) + x;
    assert s[6..] == da + "/" + x;
    assert s[6..] == db + "/" + y;
    SplitAtSlash(da, db, x, y);
    DecimalInjective(a, b);
  }

  /** Two different images never share a blob path, whatever their names. */
  lemma DistinctImagesDisjointPaths(a: nat, b: nat, f: Option<string>, g: Option<string>)
    requires a != b
    ensures forall i, j :: 0 <= i < 2 && 0 <= j < 2 ==> ImagePaths(a, f)[i] != ImagePaths(b, g)[j]
  {
    forall i, j | 0 <= i < 2 && 0 <= j < 2
      ensures ImagePaths(a, f)[i] != ImagePaths(b, g)[j]
    {
      var p, q := ImagePaths(a, f)[i], ImagePaths(b, g)[j];
      if p == q {
        assert p == ImageDir(a) + p[|ImageDir(a)|..];
        assert q == ImageDir(b) + q[|ImageDir(b)|..];
        SameDirSameImage(a, b, p[|ImageDir(a)|..], q[|ImageDir(b)|..]);
      }
    }
  }

  /** `get_record_path`: where a validation record's files live. */
  function RecordPath(validationUuid: string, filename: string): (path: string)
    ensures StartsWith(path, "record/")
    ensures EndsWith(path, "/" + filename)
    ensures path == "record/" + validationUuid + "/" + filename
  {
    var path := "record/" + validationUuid + "/" + filename;
    assert path[..7] == "record/";
    assert path[|path| - |filename| - 1..] == "/" + filename;
    path
  }

  /** With slash-free record ids, a record path determines its id and file name. */
  lemma RecordPathInjective(u1: string, f1: string, u2: string, f2: string)
    requires !Contains(u1, '/') && !Contains(u2, '/')
    requires RecordPath(u1, f1) == RecordPath(u2, f2)
    ensures u1 == u2 && f1 == f2
  {
    assert RecordPath(u1, f1) == "record/" + (u1 + "/" + f1);
    assert RecordPath(u2, f2) == "record/" + (u2 + "/" + f2);
    assert u1 + "/" + f1 == u2 + "/" + f2;
    SplitAtSlash(u1, u2, f1, f2);
  }

  /** Position of the first path the backend refuses, or |paths| if none. */
  function FirstRefused(paths: seq<string>, refused: set<string>): (k: nat)
    ensures k <= |paths|
    ensures forall i :: 0 <= i < k ==> paths[i] !in refused
    ensures k < |paths| ==> paths[k] in refused
  {
    if |paths| == 0 then 0
    else if paths[0] in refused then 0
    else 1 + FirstRefused(paths[1..], refused)
  }

  /** The bucket after writing `content` at each of `paths`, in order. */
  function WriteAll(blobs: map<string, Bytes>, paths: seq<string>, content: Bytes): map<string, Bytes>
    decreases |paths|
  {
    if |paths| == 0 then blobs
    else WriteAll(blobs[paths[0] := content], paths[1..], content)
  }

  /** Writing a list of paths adds exactly those keys, all holding the
      content, and keeps every other blob. */
  lemma {:induction false} WriteAllContents(blobs: map<string, Bytes>, paths: seq<string>, content: Bytes)
    decreases |paths|
    ensures var r := WriteAll(blobs, paths, content);
            && (forall p :: p in r <==> p in blobs || p in paths)
            && (forall p :: p in paths ==> p in r && r[p] == content)
            && (forall p :: p in blobs && p !in paths ==> p in r && r[p] == blobs[p])
  {
    if |paths| > 0 {
      var next, tail := blobs[paths[0] := content], paths[1..];
      WriteAllContents(next, tail, content);
      assert forall p :: p in paths <==> p == paths[0] || p in tail;
      assert forall p :: p in paths && p !in tail ==> p == paths[0] && p in next && next[p] == content;
      assert forall p :: p in blobs && p !in paths ==> p in next && next[p] == blobs[p];
    }
  }

  function Puts(paths: seq<string>): (r: seq<Request>)
    ensures |r| == |paths| && forall i :: 0 <= i < |paths| ==> r[i] == Put(paths[i])
  {
    seq(|paths|, i requires 0 <= i < |paths| => Put(paths[i]))
  }

  function Deletes(paths: seq<string>): (r: seq<Request>)
    ensures |r| == |paths| && forall i :: 0 <= i < |paths| ==> r[i] == Delete(paths[i])
  {
    seq(|paths|, i requires 0 <= i < |paths| => Delete(paths[i]))
  }

  class BlobStore {
    var blobs: map<string, Bytes>
    var log: seq<Request>

    constructor ()
      ensures blobs == map[] && log == []
    {
      blobs := map[];
      log := [];
    }

    /** `upload_file`: one put; a refused put, with the backend's error
        text, is reported as a 500. */
    method UploadFile(content: Bytes, path: string, refused: bool, errorText: string) returns (r: Outcome)
      modifies this
      ensures log == old(log) + [Put(path)]
      ensures refused ==> r == Fail(UploadFailed(errorText)) && blobs == old(blobs)
      ensures !refused ==> r == Pass && blobs == old(blobs)[path := content]
    {
      log := log + [Put(path)];
      if refused {
        return Fail(UploadFailed(errorText));
      }
      blobs := blobs[path := content];
      r := Pass;
    }

    /** `upload_multiple_files`: the same bytes at every path, in order. The
        first refused put ends the loop with a 500; what was written before
        it stays in the bucket. */
    method UploadMultipleFiles(content: Bytes, paths: seq<string>, refused: set<string>, errorText: string)
      returns (r: Outcome)
      modifies this
      ensures var k := FirstRefused(paths, refused);
              && log == old(log) + Puts(paths[..if k < |paths| then k + 1 else k])
              && blobs == WriteAll(old(blobs), paths[..k], content)
              && (r == if k == |paths| then Pass else Fail(UploadFailed(errorText)))
    {
      ghost var k := FirstRefused(paths, refused);
      var i := 0;
      while i < |paths|
        invariant 0 <= i <= k
        invariant log == old(log) + Puts(paths[..i])
        invariant blobs == WriteAll(old(blobs), paths[..i], content)
      {
        PutsSnoc(paths, i);
        log := log + [Put(paths[i])];
        if paths[i] in refused {
          assert k == i;
          return Fail(UploadFailed(errorText));
        }
        assert paths[..i + 1] == paths[..i] + [paths[i]];
        WriteAllSnoc(old(blobs), paths[..i], paths[i], content);
        blobs := blobs[paths[i] := content];
        i := i + 1;
      }
      r := Pass;
    }

    /** `delete_file`: never raises; a delete the backend refuses leaves
        the blob in place. */
    method DeleteFile(path: string, refused: bool)
      modifies this
      ensures log == old(log) + [Delete(path)]
      ensures blobs == if refused then old(blobs) else old(blobs) - {path}
    {
      log := log + [Delete(path)];
      if !refused {
        blobs := blobs - {path};
      }
    }

    /** `delete_multiple_files`: a delete for every path, in list order,
        whatever happened to the earlier ones. */
    method DeleteMultipleFiles(paths: seq<string>, refused: set<string>)
      modifies this
      ensures log == old(log) + Deletes(paths)
      ensures blobs == old(blobs) - (set p | p in paths && p !in refused)
    {
      var i := 0;
      while i < |paths|
        invariant 0 <= i <= |paths|
        invariant log == old(log) + Deletes(paths[..i])
        invariant blobs == old(blobs) - (set p | p in paths[..i] && p !in refused)
      {
        DeleteFile(paths[i], paths[i] in refused);
        assert paths[..i + 1] == paths[..i] + [paths[i]];
        assert Deletes(paths[..i + 1]) == Deletes(paths[..i]) + [Delete(paths[i])];
        i := i + 1;
      }
      assert paths[..i] == paths;
    }

    /** `cleanup_image_files`: deletes exactly the image's two paths. */
    method CleanupImageFiles(imageId: nat, filename: Option<string>, refused: set<string>)
      modifies this
      ensures log == old(log) + Deletes(ImagePaths(imageId, filename))
      ensures blobs == old(blobs) - (set p | p in ImagePaths(imageId, filename) && p !in refused)
      ensures forall p :: p in old(blobs) && p !in ImagePaths(imageId, filename) ==>
                p in blobs && blobs[p] == old(blobs)[p]
    {
      DeleteMultipleFiles(ImagePaths(imageId, filename), refused);
    }
  }

  lemma PutsSnoc(paths: seq<string>, i: nat)
    requires i < |paths|
    ensures Puts(paths[..i + 1]) == Puts(paths[..i]) + [Put(paths[i])]
  {
    assert paths[..i + 1] == paths[..i] + [paths[i]];
  }

  lemma {:induction false} WriteAllSnoc(blobs: map<string, Bytes>, paths: seq<string>, p: string, content: Bytes)
    ensures WriteAll(blobs, paths + [p], content) == WriteAll(blobs, paths, content)[p := content]
    decreases |paths|
  {
    if |paths| > 0 {
      assert (paths + [p])[1..] == paths[1..] + [p];
      WriteAllSnoc(blobs[paths[0] := content], paths[1..], p, content);
    }
  }
}
