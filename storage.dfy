/** The object-storage service: which configuration enables it, how object
    keys and public URLs are built, and the requests it hands to the storage
    client. Signing a URL and sending a request are done by the client and
    are not modelled; the model returns the request that would be signed or
    sent. Fresh uuids are passed in. */
module Storage {
  import opened Common

  const MsgNoClient := "S3 client not configured"
  const DefaultBucket := "portfoliox-media"
  const DefaultFolder := "uploads"
  /** Lifetime of a presigned URL, in seconds, unless the caller gives one. */
  const DefaultExpiry := 3600

  /** The configuration entries the service reads (`S3_*`). */
  datatype Config = Config(
    endpoint: Option<string>,
    accessKeyId: Option<string>,
    secretAccessKey: Option<string>,
    region: Option<string>,
    bucketName: Option<string>,
    bucketUuid: Option<string>)

  /** The request a presigned URL is made for, or that is sent. */
  datatype Command =
    | PutObject(bucket: string, key: string, contentType: string, body: Option<seq<bv8>>)
    | GetObject(bucket: string, key: string)

  datatype Presign = Presign(command: Command, expiresIn: int)

  /** `generatePresignedUploadUrl`'s result, with the request in place of
      the URL signed for it. */
  datatype Upload = Upload(presign: Presign, fileKey: string)

  datatype UploadedFile = UploadedFile(originalName: string, mimeType: string, buffer: seq<bv8>)

  /** `uploadFile`'s result and the request it sends. */
  datatype Stored = Stored(fileKey: string, publicUrl: string, sent: Command)

  predicate NoDot(s: string) {
    forall i :: 0 <= i < |s| ==> s[i] != '.'
  }

  /** `name.split('.').pop()`: the text after the last `.`, or the whole
      name when it has none. */
  function Extension(name: string): (r: string)
    ensures NoDot(r)
    ensures |r| <= |name| && r == name[|name| - |r|..]
    ensures |r| < |name| ==> name[|name| - |r| - 1] == '.'
    decreases |name|
  {
    if name == [] || name[|name| - 1] == '.' then []
    else
      var init := name[..|name| - 1];
      var e := Extension(init);
      assert name == init + [name[|name| - 1]];
      assert name[|name| - |e| - 1..] == init[|init| - |e|..] + [name[|name| - 1]];
      e + [name[|name| - 1]]
  }

  /** `${folder}/${uuid}.${extension}`, where `folder` defaults to "uploads":
      the key is the folder, `/`, the uuid and `.`, followed by exactly the
      extension of the file name, and taking its extension gives that back. */
  function FileKey(folder: Option<string>, uuid: string, fileName: string): (r: string)
    ensures var prefix := folder.GetOr(DefaultFolder) + "/" + uuid + ".";
      |prefix| <= |r| && r[..|prefix|] == prefix && r[|prefix|..] == Extension(fileName)
    ensures Extension(r) == Extension(fileName)
  {
    var ext := Extension(fileName);
    var prefix := folder.GetOr(DefaultFolder) + "/" + uuid + ".";
    ExtensionAfterDot(prefix, ext);
    assert (prefix + ext)[..|prefix|] == prefix;
    assert (prefix + ext)[|prefix|..] == ext;
    prefix + ext
  }

  /** The extension of `prefix + ext`, where prefix ends with `.` and ext
      has none, is ext. */
  lemma {:induction false} ExtensionAfterDot(prefix: string, ext: string)
    requires prefix != [] && prefix[|prefix| - 1] == '.' && NoDot(ext)
    ensures Extension(prefix + ext) == ext
    decreases |ext|
  {
    if ext == [] {
      assert prefix + ext == prefix;
    } else {
      var s, init, last := prefix + ext, ext[..|ext| - 1], ext[|ext| - 1];
      assert s[|s| - 1] == last && last != '.';
      assert s[..|s| - 1] == prefix + init;
      ExtensionAfterDot(prefix, init);
      assert Extension(s) == Extension(prefix + init) + [last];
      assert ext == init + [last];
    }
  }

  /** Different uuids give different keys for the same folder and file,
      provided the uuids have no `.` (a version-4 uuid is hex digits and
      dashes). */
  lemma KeyDeterminesUuid(folder: Option<string>, u1: string, u2: string, fileName: string)
    requires NoDot(u1) && NoDot(u2)
    requires FileKey(folder, u1, fileName) == FileKey(folder, u2, fileName)
    ensures u1 == u2
  {
    FirstDotSplits(folder.GetOr(DefaultFolder) + "/", u1, u2, Extension(fileName));
  }

  /** Behind a common prefix, the text before the next `.` is determined
      by the whole string. */
  lemma FirstDotSplits(p: string, u1: string, u2: string, t: string)
    requires NoDot(u1) && NoDot(u2) && p + u1 + "." + t == p + u2 + "." + t
    ensures u1 == u2
  {
    var s1, s2 := p + u1 + "." + t, p + u2 + "." + t;
    DotAfter(p, u1, t, |p|);
    DotAfter(p, u2, t, |p|);
    assert u1 == s1[|p|..|p| + |u1|] && u2 == s2[|p|..|p| + |u2|];
  }

  /** The position of the first `.` at or after i, or the length. */
  function DotFrom(s: string, i: nat): (r: nat)
    requires i <= |s|
    ensures i <= r <= |s|
    decreases |s| - i
  {
    if i == |s| || s[i] == '.' then i else DotFrom(s, i + 1)
  }

  lemma {:induction false} DotAfter(p: string, u: string, t: string, i: nat)
    requires NoDot(u) && |p| <= i <= |p| + |u|
    ensures DotFrom(p + u + "." + t, i) == |p| + |u|
    decreases |p| + |u| - i
  {
    var s := p + u + "." + t;
    if i < |p| + |u| {
      assert s[i] == u[i - |p|];
      DotAfter(p, u, t, i + 1);
    } else {
      assert s[i] == '.';
    }
  }

  /** `getPublicUrl`: the bucket's public address followed by the key when
      both `S3_ENDPOINT` and `S3_BUCKET_NAME` are set, the key alone
      otherwise. It reads the configuration itself, so the default bucket
      name does not enable it. */
  function PublicUrl(config: Config, fileKey: string): (r: string)
    ensures Truthy(config.endpoint) && Truthy(config.bucketName) ==>
      r == "https://" + Interpolate(config.bucketUuid) + ".selstorage.ru/" + fileKey
    ensures !(Truthy(config.endpoint) && Truthy(config.bucketName)) ==> r == fileKey
  {
    if Truthy(config.endpoint) && Truthy(config.bucketName) then
      "https://" + Interpolate(config.bucketUuid) + ".selstorage.ru/" + fileKey
    else fileKey
  }

  /** Every public URL ends with the key it was made for, so the key can be
      read back from it. */
  lemma PublicUrlEndsWithKey(config: Config, fileKey: string)
    ensures var url := PublicUrl(config, fileKey);
      |fileKey| <= |url| && url[|url| - |fileKey|..] == fileKey
  {
  }

  class StorageService {
    const config: Config
    /** Whether a storage client was created. */
    const hasClient: bool
    const bucketName: string

    /** A client is created only when both credentials are set; the bucket
        name falls back to "portfoliox-media". */
    constructor (config: Config)
      ensures this.config == config
      ensures hasClient <==> Truthy(config.accessKeyId) && Truthy(config.secretAccessKey)
      ensures Truthy(config.bucketName) ==> bucketName == config.bucketName.value
      ensures !Truthy(config.bucketName) ==> bucketName == DefaultBucket
    {
      this.config := config;
      hasClient := Truthy(config.accessKeyId) && Truthy(config.secretAccessKey);
      bucketName := if Truthy(config.bucketName) then config.bucketName.value else DefaultBucket;
    }

    /** `generatePresignedUploadUrl`: a put request for a fresh key, valid
        for an hour. */
    function PresignedUpload(fileName: string, contentType: string, folder: Option<string>, uuid: string): (r: Result<Upload>)
      ensures !hasClient <==> r == Err(Failure(MsgNoClient))
      ensures r.Ok? <==> hasClient
      ensures r.Ok? ==> r.value.fileKey == FileKey(folder, uuid, fileName)
      ensures r.Ok? ==> r.value.presign == Presign(PutObject(bucketName, r.value.fileKey, contentType, None), DefaultExpiry)
    {
      if !hasClient then Err(Failure(MsgNoClient))
      else
        var key := FileKey(folder, uuid, fileName);
        Ok(Upload(Presign(PutObject(bucketName, key, contentType, None), DefaultExpiry), key))
    }

    /** `generatePresignedDownloadUrl`: a get request for the key, valid for
        the given number of seconds or an hour. */
    function PresignedDownload(fileKey: string, expiresIn: Option<int>): (r: Result<Presign>)
      ensures !hasClient <==> r == Err(Failure(MsgNoClient))
      ensures r.Ok? <==> hasClient
      ensures r.Ok? ==> r.value.command == GetObject(bucketName, fileKey)
      ensures r.Ok? ==> r.value.expiresIn == if expiresIn.Some? then expiresIn.value else DefaultExpiry
    {
      if !hasClient then Err(Failure(MsgNoClient))
      else Ok(Presign(GetObject(bucketName, fileKey), expiresIn.GetOr(DefaultExpiry)))
    }

    /** `uploadFile`: sends the file's bytes under a fresh key and returns
        the key and its public URL. */
    function UploadFile(file: UploadedFile, folder: Option<string>, uuid: string): (r: Result<Stored>)
      ensures !hasClient <==> r == Err(Failure(MsgNoClient))
      ensures r.Ok? <==> hasClient
      ensures r.Ok? ==> r.value.fileKey == FileKey(folder, uuid, file.originalName)
      ensures r.Ok? ==> r.value.publicUrl == PublicUrl(config, r.value.fileKey)
      ensures r.Ok? ==> r.value.sent == PutObject(bucketName, r.value.fileKey, file.mimeType, Some(file.buffer))
    {
      if !hasClient then Err(Failure(MsgNoClient))
      else
        var key := FileKey(folder, uuid, file.originalName);
        Ok(Stored(key, PublicUrl(config, key), PutObject(bucketName, key, file.mimeType, Some(file.buffer))))
    }
  }

  /** The uploaded file's URL leads back to its key, and the key keeps the
      file's extension. */
  lemma UploadedFileFindable(s: StorageService, file: UploadedFile, folder: Option<string>, uuid: string)
    requires s.UploadFile(file, folder, uuid).Ok?
    ensures var r := s.UploadFile(file, folder, uuid).value;
      && r.publicUrl[|r.publicUrl| - |r.fileKey|..] == r.fileKey
      && Extension(r.fileKey) == Extension(file.originalName)
      && r.sent.key == r.fileKey
  {
    var r := s.UploadFile(file, folder, uuid).value;
    var key := FileKey(folder, uuid, file.originalName);
    assert r.fileKey == key && r.publicUrl == PublicUrl(s.config, key);
    PublicUrlEndsWithKey(s.config, key);
  }

  /** A name without `.` is its own extension. */
  lemma {:induction false} ExtensionOfDotless(name: string)
    requires NoDot(name)
    ensures Extension(name) == name
    decreases |name|
  {
    if name != [] {
      var init := name[..|name| - 1];
      ExtensionOfDotless(init);
      assert name == init + [name[|name| - 1]];
    }
  }

  /** Only the text after the last `.` counts: "archive.tar.gz" has
      extension "gz". */
  lemma LastDotExample()
    ensures Extension("archive.tar.gz") == "gz"
  {
    var prefix, ext := "archive.tar.", "gz";
    assert NoDot(ext) by {
      assert ext[0] == 'g' && ext[1] == 'z';
    }
    ExtensionAfterDot(prefix, ext);
    assert prefix + ext == "archive.tar.gz";
  }

  /** A name ending in `.` has the empty extension. */
  lemma TrailingDotExample()
    ensures Extension("name.") == ""
  {
  }
}
