/**
 The object-storage helpers: unique stored names, object keys, and the
 result records of upload, signed-URL, delete and existence calls. The S3
 client is a `send` function from a command to its outcome, and the
 presigner a function from a command and a lifetime to a URL or an error.
 */
module BlobStore {
  import opened Common
  import opened PathNames

  newtype byte = x: int | 0 <= x < 256

  // ---------------------------------------------------------------------
  // Hex rendering of the random bytes
  // ---------------------------------------------------------------------

  predicate IsHexChar(c: char) {
    ('0' <= c <= '9') || ('a' <= c <= 'f')
  }

  /** The lower-case hex digit of `v`. */
  function HexDigit(v: nat): (c: char)
    requires v < 16
    ensures IsHexChar(c)
  {
    if v < 10 then ('0' as int + v) as char else ('a' as int + v - 10) as char
  }

  function HexValue(c: char): (v: nat)
    requires IsHexChar(c)
    ensures v < 16 && HexDigit(v) == c
  {
    if c <= '9' then c as int - '0' as int else c as int - 'a' as int + 10
  }

  /** `buffer.toString('hex')`: two lower-case digits per byte, high nibble first. */
  function HexEncode(bs: seq<byte>): (s: string)
    ensures |s| == 2 * |bs|
    ensures forall k :: 0 <= k < |s| ==> IsHexChar(s[k])
  {
    if |bs| == 0 then []
    else [HexDigit(bs[0] as nat / 16), HexDigit(bs[0] as nat % 16)] + HexEncode(bs[1..])
  }

  /** Reads an even run of lower-case hex digits back into bytes. */
  function HexDecode(s: string): (r: Option<seq<byte>>)
    ensures r.Some? ==> |s| == 2 * |r.value|
    decreases |s|
  {
    if |s| == 0 then Some([])
    else if |s| == 1 || !IsHexChar(s[0]) || !IsHexChar(s[1]) then None
    else match HexDecode(s[2..])
      case None => None
      case Some(rest) => Some([(HexValue(s[0]) * 16 + HexValue(s[1])) as byte] + rest)
  }

  /** Decoding the rendering gives the bytes back. */
  lemma {:induction false} HexRoundTrip(bs: seq<byte>)
    ensures HexDecode(HexEncode(bs)) == Some(bs)
  {
    if |bs| > 0 {
      var s := HexEncode(bs);
      assert s[2..] == HexEncode(bs[1..]);
      HexRoundTrip(bs[1..]);
      assert HexValue(s[0]) * 16 + HexValue(s[1]) == bs[0] as nat;
      assert bs == [bs[0]] + bs[1..];
    }
  }

  /** And every string that decodes is the rendering of what it decodes to. */
  lemma {:induction false} HexDecodeRendersBack(s: string)
    requires HexDecode(s).Some?
    ensures HexEncode(HexDecode(s).value) == s
    decreases |s|
  {
    if |s| > 0 {
      var bs := HexDecode(s).value;
      HexDecodeRendersBack(s[2..]);
      assert bs[1..] == HexDecode(s[2..]).value;
      assert s == [s[0], s[1]] + s[2..];
    }
  }

  // ---------------------------------------------------------------------
  // generateUniqueFilename
  // ---------------------------------------------------------------------

  /** `crypto.randomBytes(8)`: the length of the random part, in bytes. */
  const RandomBytes: nat := 8

  /** What the generator inserts between base name and extension: `-stamp-hash`. */
  function Inserted(stamp: nat, random: seq<byte>): (m: string)
    ensures |m| > 0 && m[0] == '-'
    ensures '.' !in m && '/' !in m
    ensures |m| == |Decimal(stamp)| + 2 * |random| + 2
  {
    var d := Decimal(stamp);
    var h := HexEncode(random);
    assert '.' !in d && '/' !in d;
    assert '.' !in h && '/' !in h;
    "-" + d + "-" + h
  }

  /** A name assembled as `b + m + e` with `m` starting with a dash. */
  lemma Assembled(b: string, m: string, e: string)
    requires |m| > 0 && m[0] == '-'
    ensures StartsWith(b + m + e, b + "-") && EndsWith(b + m + e, e)
  {
    var r := b + m + e;
    assert r[..|b| + 1] == b + "-";
    assert r[|r| - |e|..] == e;
  }

  /**
   `base-stamp-hash.ext`: the original's base name, the millisecond
   timestamp, the random bytes in hex and the original's extension. Any
   directory part of the original is dropped.
   */
  function GenerateUniqueFilename(original: string, stamp: nat, random: seq<byte>): (r: string)
    ensures '/' !in r
    ensures StartsWith(r, Base(original) + "-") && EndsWith(r, Ext(original))
    ensures |r| == |LastComponent(original)| + |Decimal(stamp)| + 2 * |random| + 2
  {
    var b := Base(original);
    var e := Ext(original);
    var m := Inserted(stamp, random);
    Assembled(b, m, e);
    b + m + e
  }

  /** The parts a stored name is made from. */
  datatype StoredName = StoredName(original: string, stamp: nat, random: seq<byte>)

  /** Splits `base-digits` at the dash before its trailing digits. */
  function SplitStamp(pre: string): Option<(string, nat)>
  {
    var t := TrailingDigits(pre);
    if t == 0 || t == |pre| || pre[|pre| - t - 1] != '-' then None
    else Some((pre[..|pre| - t - 1], DecimalValue(pre[|pre| - t..])))
  }

  /** Takes `base-stamp-hash` apart from the right. */
  function ParseStem(rest: string): (r: Option<StoredName>)
    ensures r.Some? ==> |r.value.random| == RandomBytes
  {
    var h := 2 * RandomBytes;
    if |rest| < h + 1 || rest[|rest| - h - 1] != '-' then None
    else match HexDecode(rest[|rest| - h..])
      case None => None
      case Some(random) =>
        match SplitStamp(rest[..|rest| - h - 1])
        case None => None
        case Some(parts) => Some(StoredName(parts.0, parts.1, random))
  }

  /**
   Takes a generated name apart: its extension, then the hash of
   `RandomBytes` bytes, the timestamp digits and the base name before them.
   */
  function ParseStoredName(stored: string): (r: Option<StoredName>)
    ensures r.Some? ==> |r.value.random| == RandomBytes
  {
    var e := Ext(stored);
    match ParseStem(stored[..|stored| - |e|])
    case None => None
    case Some(n) => Some(n.(original := n.original + e))
  }

  lemma SplitStampInverse(b: string, stamp: nat)
    ensures SplitStamp(b + "-" + Decimal(stamp)) == Some((b, stamp))
  {
    var d := Decimal(stamp);
    var pre := b + "-" + d;
    assert pre[|pre| - |d|..] == d;
    DigitsRunIsMaximal(pre, |d|);
    DecimalRoundTrip(stamp);
    assert pre[..|pre| - |d| - 1] == b;
  }

  lemma ParseStemInverse(b: string, stamp: nat, random: seq<byte>)
    requires |random| == RandomBytes
    ensures ParseStem(b + Inserted(stamp, random)) == Some(StoredName(b, stamp, random))
  {
    var pre := b + "-" + Decimal(stamp);
    var hex := HexEncode(random);
    assert b + Inserted(stamp, random) == pre + "-" + hex;
    DashSplit(pre, hex);
    HexRoundTrip(random);
    SplitStampInverse(b, stamp);
  }

  /** The pieces on either side of the dash before a suffix of known length. */
  lemma DashSplit(pre: string, tail: string)
    ensures var s := pre + "-" + tail;
      s[|s| - |tail|..] == tail && s[|s| - |tail| - 1] == '-' && s[..|s| - |tail| - 1] == pre
  {
  }

  /**
   The generated name keeps the original's extension, except for an
   original whose last component is `..`: that one gains the extension
   `.-stamp-hash`.
   */
  lemma GeneratedKeepsExtension(original: string, stamp: nat, random: seq<byte>)
    ensures Ext(GenerateUniqueFilename(original, stamp, random)) == Ext(original)
      <==> LastComponent(original) != ".."
  {
    var b := Base(original);
    var e := Ext(original);
    var m := Inserted(stamp, random);
    var g := GenerateUniqueFilename(original, stamp, random);
    assert g == b + m + e;
    if LastComponent(original) == ".." {
      assert b == ".." && e == "";
      assert g[1] == '.' && |g| > 2;
      assert HasInnerDot(g);
    } else if e != "" {
      assert g != "..";
      ExtOfName(g, e);
    } else {
      assert b + m + e == b + m;
      NoInnerDotAppended(b, m);
    }
  }

  /** Appending dot-free text to a name without an inner dot adds none. */
  lemma NoInnerDotAppended(b: string, m: string)
    requires !HasInnerDot(b) && '.' !in m
    ensures !HasInnerDot(b + m)
  {
    var g := b + m;
    forall d | 0 < d < |g|
      ensures g[d] != '.'
    {
      if d < |b| {
        assert g[d] == b[d];
      } else {
        assert g[d] == m[d - |b|];
      }
    }
  }

  /**
   The generated name determines the original's last component, the
   timestamp and the random bytes (for any original but `..`).
   */
  lemma ParseGenerated(original: string, stamp: nat, random: seq<byte>)
    requires |random| == RandomBytes
    requires LastComponent(original) != ".."
    ensures ParseStoredName(GenerateUniqueFilename(original, stamp, random))
      == Some(StoredName(LastComponent(original), stamp, random))
  {
    var b := Base(original);
    var e := Ext(original);
    var g := GenerateUniqueFilename(original, stamp, random);
    assert g == b + Inserted(stamp, random) + e;
    GeneratedKeepsExtension(original, stamp, random);
    ParseAssembled(b, stamp, random, e);
  }

  /** The parser on a name assembled from base, inserted part and its own extension. */
  lemma ParseAssembled(b: string, stamp: nat, random: seq<byte>, e: string)
    requires |random| == RandomBytes
    requires Ext(b + Inserted(stamp, random) + e) == e
    ensures ParseStoredName(b + Inserted(stamp, random) + e) == Some(StoredName(b + e, stamp, random))
  {
    var g := b + Inserted(stamp, random) + e;
    assert g[..|g| - |e|] == b + Inserted(stamp, random);
    ParseStemInverse(b, stamp, random);
  }

  // ---------------------------------------------------------------------
  // buildObjectKey
  // ---------------------------------------------------------------------

  /** `replace(/^\/|\/$/g, '')`: one leading and one trailing slash go, inner ones stay. */
  function StripSlashes(s: string): (r: string)
    ensures r == s || "/" + r == s || r + "/" == s || "/" + r + "/" == s
    ensures StartsWith(s, "/") ==> "/" + r == s || "/" + r + "/" == s
    ensures |s| >= 2 && s[|s| - 1] == '/' ==> r + "/" == s || "/" + r + "/" == s
    ensures !StartsWith(s, "/") && !EndsWith(s, "/") ==> r == s
  {
    if |s| == 0 then s
    else if s[0] == '/' then
      if |s| >= 2 && s[|s| - 1] == '/' then
        var r := s[1..|s| - 1];
        assert "/" + r + "/" == s;
        r
      else
        var r := s[1..];
        assert "/" + r == s;
        r
    else if s[|s| - 1] == '/' then
      var r := s[..|s| - 1];
      assert r + "/" == s;
      assert s[..1] != "/";
      r
    else
      assert s[..1] != "/";
      s
  }

  /** Slashes are stripped once per end, not repeatedly; a lone slash or two become empty. */
  lemma StripSlashesExamples()
    ensures StripSlashes("//a//") == "/a/"
    ensures StripSlashes("/") == "" && StripSlashes("//") == ""
    ensures StripSlashes("u1/Docs") == "u1/Docs"
  {
  }

  /**
   `buildObjectKey`: the file name alone when there is no subfolder (absent
   or empty); otherwise the stripped subfolder, a slash and the file name.
   */
  function BuildObjectKey(filename: string, subfolder: Option<string>): (key: string)
    ensures subfolder.None? || subfolder.value == "" ==> key == filename
    ensures subfolder.Some? && subfolder.value != "" ==>
      EndsWith(key, "/" + filename) && key[..|key| - |filename| - 1] == StripSlashes(subfolder.value)
  {
    if subfolder.None? || subfolder.value == "" then filename
    else
      var key := StripSlashes(subfolder.value) + "/" + filename;
      assert key[|key| - |filename| - 1..] == "/" + filename;
      key
  }

  /**
   A key's last path component is the file name it was built from, whatever
   the subfolder, so the stored name can be read back from the key.
   */
  lemma KeyEndsInFilename(filename: string, subfolder: Option<string>)
    requires '/' !in filename && filename != ""
    ensures LastComponent(BuildObjectKey(filename, subfolder)) == filename
  {
    var key := BuildObjectKey(filename, subfolder);
    if subfolder.Some? && subfolder.value != "" {
      var p := StripSlashes(subfolder.value);
      assert key == p + "/" + filename;
      assert key[|key| - 1] == filename[|filename| - 1];
      assert TrimTrailingSlashes(key) == key;
      assert LastIndex(key, '/') == Some(|p|) by {
        assert key[|p|] == '/';
        forall k | |p| < k < |key|
          ensures key[k] != '/'
        {
          assert key[k] == filename[k - |p| - 1];
        }
      }
    }
  }

  /** A subfolder without a leading or trailing slash is the key's prefix verbatim. */
  lemma KeyKeepsCleanSubfolder(filename: string, subfolder: string)
    requires subfolder != "" && subfolder[0] != '/' && subfolder[|subfolder| - 1] != '/'
    ensures BuildObjectKey(filename, Some(subfolder)) == subfolder + "/" + filename
  {
  }

  // ---------------------------------------------------------------------
  // Buckets and the client
  // ---------------------------------------------------------------------

  datatype BucketType = Public | Private

  /** How a bucket type prints in an error message. */
  function BucketTypeName(t: BucketType): string {
    match t
    case Public => "public"
    case Private => "private"
  }

  /** The two bucket names and the region, read from the environment; `None` when unset. */
  datatype BlobConfig = BlobConfig(publicBucket: Option<string>, privateBucket: Option<string>, region: Option<string>)

  /** A setting as a template literal renders it: an unset one reads `undefined`. */
  function EnvText(v: Option<string>): (t: string)
    ensures v.Some? ==> t == v.value
    ensures v.None? ==> t == "undefined"
  {
    match v
    case Some(x) => x
    case None => "undefined"
  }

  /** `buckets[bucketType]`: the setting for that bucket type. */
  function BucketSetting(cfg: BlobConfig, t: BucketType): Option<string> {
    match t
    case Public => cfg.publicBucket
    case Private => cfg.privateBucket
  }

  /**
   The bucket name as the `!bucketName` test sees it: an unset name and an
   empty one are both refused, so both are "" here.
   */
  function BucketName(cfg: BlobConfig, t: BucketType): (b: string)
    ensures b == "" <==> BucketSetting(cfg, t).None? || BucketSetting(cfg, t) == Some("")
    ensures b != "" ==> BucketSetting(cfg, t) == Some(b)
  {
    match BucketSetting(cfg, t)
    case Some(x) => x
    case None => ""
  }

  /** `https://<public bucket>.s3.<region>.amazonaws.com`, built without any check of the settings. */
  function PublicBaseUrl(cfg: BlobConfig): string {
    "https://" + EnvText(cfg.publicBucket) + ".s3." + EnvText(cfg.region) + ".amazonaws.com"
  }

  /** The direct URL of a public object. */
  function PublicUrl(cfg: BlobConfig, key: string): string {
    PublicBaseUrl(cfg) + "/" + key
  }

  /** The message of a bucket whose name is not configured. */
  function InvalidBucket(t: BucketType): string {
    "Invalid bucket type: " + BucketTypeName(t)
  }

  datatype Command =
    | PutObject(bucket: string, key: string, body: seq<byte>, contentType: string, metadata: map<string, string>)
    | GetObject(bucket: string, key: string)
    | DeleteObject(bucket: string, key: string)

  /**
   What `s3Client.send` did: it resolved, or it threw. A thrown `Error`
   carries a message; anything else thrown carries none.
   */
  datatype SendOutcome = Sent | Thrown(name: string, message: Option<string>)

  /** The `catch` clause: the error's message, or the call's fallback text. */
  function ErrorText(message: Option<string>, fallback: string): (t: string)
    ensures message.Some? ==> t == message.value
    ensures message.None? ==> t == fallback
  {
    match message
    case Some(m) => m
    case None => fallback
  }

  function BucketOr(t: Option<BucketType>, fallback: BucketType): BucketType {
    match t
    case Some(b) => b
    case None => fallback
  }

  // ---------------------------------------------------------------------
  // uploadFile
  // ---------------------------------------------------------------------

  /** A file as the upload middleware hands it over. */
  datatype Upload = Upload(originalName: string, mimetype: string, size: nat, buffer: seq<byte>)

  /** The options; a `None` takes the default (public, generated name, no metadata). */
  datatype UploadOptions = UploadOptions(
    bucketType: Option<BucketType>,
    subfolder: Option<string>,
    useOriginalFilename: Option<bool>,
    metadata: Option<map<string, string>>)

  datatype FileInfo = FileInfo(
    key: string,
    bucket: string,
    bucketType: BucketType,
    originalName: string,
    storedName: string,
    mimeType: string,
    size: nat)

  /** The result object: `success`, and `fileInfo` and `url` or `error`. */
  datatype UploadResult = UploadResult(
    success: bool, fileInfo: Option<FileInfo>, url: Option<string>, error: Option<string>)

  const UnknownUploadError: string := "Unknown error during upload"

  /** The name an upload is stored under: the original, or a generated one (the default). */
  function StoredNameFor(file: Upload, opts: UploadOptions, stamp: nat, random: seq<byte>): (name: string)
    ensures opts.useOriginalFilename == Some(true) ==> name == file.originalName
    ensures opts.useOriginalFilename != Some(true) ==>
      '/' !in name && StartsWith(name, Base(file.originalName) + "-") && EndsWith(name, Ext(file.originalName))
  {
    if opts.useOriginalFilename == Some(true) then file.originalName
    else GenerateUniqueFilename(file.originalName, stamp, random)
  }

  /**
   `uploadFile`: one put of the buffer under the built key, into the bucket
   the type selects, and the result record. The second component is the
   command sent, if one was.
   */
  function UploadFile(file: Upload, opts: UploadOptions, cfg: BlobConfig, stamp: nat, random: seq<byte>,
                      send: Command -> SendOutcome): (r: (UploadResult, Option<Command>))
    ensures r.0.success <==> r.0.fileInfo.Some?
    ensures !r.0.success ==> r.0.url.None? && r.0.error.Some?
    ensures r.0.success ==> r.0.error.None?
    // nothing is sent to an unconfigured bucket
    ensures var t := BucketOr(opts.bucketType, Public);
      BucketName(cfg, t) == "" ==> r == (UploadResult(false, None, None, Some(InvalidBucket(t))), None)
    // one put, of the buffer, under the key, into the selected bucket
    ensures BucketName(cfg, BucketOr(opts.bucketType, Public)) != "" ==> r.1.Some?
    ensures r.1.Some? ==> var c := r.1.value;
      && c.PutObject?
      && c.bucket == BucketName(cfg, BucketOr(opts.bucketType, Public)) && c.bucket != ""
      && c.key == BuildObjectKey(StoredNameFor(file, opts, stamp, random), opts.subfolder)
      && c.body == file.buffer && c.contentType == file.mimetype
      && (opts.metadata.None? ==> c.metadata == map[])
      && (opts.metadata.Some? ==> c.metadata == opts.metadata.value)
      && (r.0.success <==> send(c).Sent?)
      && (send(c).Thrown? ==> r.0.error == Some(ErrorText(send(c).message, UnknownUploadError)))
    // the file info echoes the upload and the put
    ensures r.0.success ==> var info := r.0.fileInfo.value;
      && r.1.Some? && info.key == r.1.value.key && info.bucket == r.1.value.bucket
      && info.bucketType == BucketOr(opts.bucketType, Public)
      && info.originalName == file.originalName && info.mimeType == file.mimetype && info.size == file.size
      && info.storedName == StoredNameFor(file, opts, stamp, random)
      && EndsWith(info.key, info.storedName)
    // a public object gets its direct URL, a private one none
    ensures r.0.success ==> var info := r.0.fileInfo.value;
      r.0.url == if info.bucketType == Public then Some(PublicUrl(cfg, info.key)) else None
  {
    var t := BucketOr(opts.bucketType, Public);
    var filename := StoredNameFor(file, opts, stamp, random);
    var key := BuildObjectKey(filename, opts.subfolder);
    var bucket := BucketName(cfg, t);
    if bucket == "" then (UploadResult(false, None, None, Some(InvalidBucket(t))), None)
    else
      var metadata := match opts.metadata case Some(m) => m case None => map[];
      var c := PutObject(bucket, key, file.buffer, file.mimetype, metadata);
      match send(c)
      case Thrown(_, message) => (UploadResult(false, None, None, Some(ErrorText(message, UnknownUploadError))), Some(c))
      case Sent =>
        var info := FileInfo(key, bucket, t, file.originalName, filename, file.mimetype, file.size);
        var url := if t == Public then Some(PublicUrl(cfg, key)) else None;
        (UploadResult(true, Some(info), url, None), Some(c))
  }

  /** With the original name kept, the stored name is the original and the key ends with it. */
  lemma UploadKeepsOriginalName(file: Upload, opts: UploadOptions, cfg: BlobConfig, stamp: nat, random: seq<byte>,
                                send: Command -> SendOutcome)
    requires opts.useOriginalFilename == Some(true)
    requires UploadFile(file, opts, cfg, stamp, random, send).0.success
    ensures var info := UploadFile(file, opts, cfg, stamp, random, send).0.fileInfo.value;
      info.storedName == info.originalName == file.originalName
  {
  }

  /**
   A generated stored name can be read back from the key of a successful
   upload: the key's last component parses to the original name (when it has
   no directory part), the timestamp and the random bytes.
   */
  lemma UploadKeyNamesTheOriginal(file: Upload, opts: UploadOptions, cfg: BlobConfig, stamp: nat, random: seq<byte>,
                                  send: Command -> SendOutcome)
    requires opts.useOriginalFilename != Some(true)
    requires |random| == RandomBytes && '/' !in file.originalName && file.originalName != ".."
    requires UploadFile(file, opts, cfg, stamp, random, send).0.success
    ensures var info := UploadFile(file, opts, cfg, stamp, random, send).0.fileInfo.value;
      ParseStoredName(LastComponent(info.key)) == Some(StoredName(file.originalName, stamp, random))
  {
    var g := GenerateUniqueFilename(file.originalName, stamp, random);
    KeyEndsInFilename(g, opts.subfolder);
    ParseGenerated(file.originalName, stamp, random);
  }

  // ---------------------------------------------------------------------
  // generateSignedUrl, deleteFile, fileExists
  // ---------------------------------------------------------------------

  /** `expiresIn` is `None` for the `null` of a URL that never expires. */
  datatype SignedUrlResult = SignedUrl(url: string, expiresIn: Option<int>) | SignedUrlFailed(error: string)

  /** What the presigner did with a command and a lifetime. */
  datatype PresignOutcome = Presigned(url: string) | PresignThrown(message: Option<string>)

  const DefaultExpiry: int := 3600
  const UnknownSignError: string := "Unknown error generating URL"

  /**
   `generateSignedUrl` (private by default): the direct URL for a public
   object, never expiring; otherwise a presigned get of the object, valid
   for `expiresIn` seconds (default 3600).
   */
  function GenerateSignedUrl(key: string, bucketType: Option<BucketType>, expiresIn: Option<int>, cfg: BlobConfig,
                             presign: (Command, int) -> PresignOutcome): (r: SignedUrlResult)
    ensures BucketOr(bucketType, Private) == Public ==> r == SignedUrl(PublicUrl(cfg, key), None)
    ensures BucketOr(bucketType, Private) == Private ==> var c := GetObject(BucketName(cfg, Private), key);
      var life := if expiresIn.Some? then expiresIn.value else DefaultExpiry;
      && (BucketName(cfg, Private) == "" ==> r == SignedUrlFailed(InvalidBucket(Private)))
      && (BucketName(cfg, Private) != "" && presign(c, life).Presigned? ==> r == SignedUrl(presign(c, life).url, Some(life)))
      && (BucketName(cfg, Private) != "" && presign(c, life).PresignThrown? ==>
            r == SignedUrlFailed(ErrorText(presign(c, life).message, UnknownSignError)))
  {
    var t := BucketOr(bucketType, Private);
    if t == Public then SignedUrl(PublicUrl(cfg, key), None)
    else
      var bucket := BucketName(cfg, t);
      if bucket == "" then SignedUrlFailed(InvalidBucket(t))
      else
        var life := match expiresIn case Some(n) => n case None => DefaultExpiry;
        match presign(GetObject(bucket, key), life)
        case Presigned(url) => SignedUrl(url, Some(life))
        case PresignThrown(message) => SignedUrlFailed(ErrorText(message, UnknownSignError))
  }

  /** A public URL never fails and never expires, whatever the configuration. */
  lemma PublicSignedUrlNeverFails(key: string, expiresIn: Option<int>, cfg: BlobConfig,
                                  presign: (Command, int) -> PresignOutcome)
    ensures GenerateSignedUrl(key, Some(Public), expiresIn, cfg, presign).SignedUrl?
    ensures GenerateSignedUrl(key, Some(Public), expiresIn, cfg, presign).expiresIn.None?
  {
  }

  datatype DeleteResult = Deleted(message: string) | DeleteFailed(error: string)

  const UnknownDeleteError: string := "Unknown error during deletion"

  /** `deleteFile` (public by default): one delete of the key, and the result record. */
  function DeleteObjectAt(key: string, bucketType: Option<BucketType>, cfg: BlobConfig,
                          send: Command -> SendOutcome): (r: (DeleteResult, Option<Command>))
    ensures var t := BucketOr(bucketType, Public);
      BucketName(cfg, t) == "" ==> r == (DeleteFailed(InvalidBucket(t)), None)
    ensures var t := BucketOr(bucketType, Public);
      BucketName(cfg, t) != "" ==> r.1 == Some(DeleteObject(BucketName(cfg, t), key))
    ensures r.1.Some? ==> (r.0.Deleted? <==> send(r.1.value).Sent?)
    ensures r.0.Deleted? ==> r.0.message == "File " + key + " deleted successfully"
    ensures r.1.Some? && send(r.1.value).Thrown? ==>
      r.0 == DeleteFailed(ErrorText(send(r.1.value).message, UnknownDeleteError))
  {
    var t := BucketOr(bucketType, Public);
    var bucket := BucketName(cfg, t);
    if bucket == "" then (DeleteFailed(InvalidBucket(t)), None)
    else
      var c := DeleteObject(bucket, key);
      match send(c)
      case Sent => (Deleted("File " + key + " deleted successfully"), Some(c))
      case Thrown(_, message) => (DeleteFailed(ErrorText(message, UnknownDeleteError)), Some(c))
  }

  datatype ExistsResult = Checked(found: bool) | CheckFailed(error: string)

  const UnknownCheckError: string := "Unknown error checking file"

  /**
   `fileExists` (public by default): a get of the key; a `NoSuchKey` error
   is a successful "no", any other error a failure.
   */
  function FileExists(key: string, bucketType: Option<BucketType>, cfg: BlobConfig,
                      send: Command -> SendOutcome): (r: ExistsResult)
    ensures var t := BucketOr(bucketType, Public);
      BucketName(cfg, t) == "" ==> r == CheckFailed(InvalidBucket(t))
    ensures var t := BucketOr(bucketType, Public); var c := GetObject(BucketName(cfg, t), key);
      BucketName(cfg, t) != "" ==>
        && (r == Checked(true) <==> send(c).Sent?)
        && (r == Checked(false) <==> send(c).Thrown? && send(c).name == "NoSuchKey")
        && (r.CheckFailed? ==> (send(c).Thrown? && send(c).name != "NoSuchKey"
              && r.error == ErrorText(send(c).message, UnknownCheckError)))
  {
    var t := BucketOr(bucketType, Public);
    var bucket := BucketName(cfg, t);
    if bucket == "" then CheckFailed(InvalidBucket(t))
    else match send(GetObject(bucket, key))
      case Sent => Checked(true)
      case Thrown(name, message) =>
        if name == "NoSuchKey" then Checked(false)
        else CheckFailed(ErrorText(message, UnknownCheckError))
  }

  // ---------------------------------------------------------------------
  // The calls after an upload address the object the upload put
  // ---------------------------------------------------------------------

  /**
   The URL handed out for an uploaded object: for a public upload, the very
   URL the upload returned, never expiring; for a private one, a presigned
   get of the bucket and key the put wrote.
   */
  lemma SignedUrlOfUpload(file: Upload, opts: UploadOptions, cfg: BlobConfig, stamp: nat, random: seq<byte>,
                          send: Command -> SendOutcome, expiresIn: Option<int>, presign: (Command, int) -> PresignOutcome)
    requires UploadFile(file, opts, cfg, stamp, random, send).0.success
    ensures var r := UploadFile(file, opts, cfg, stamp, random, send);
      var info := r.0.fileInfo.value;
      var get := GetObject(r.1.value.bucket, r.1.value.key);
      var life := if expiresIn.Some? then expiresIn.value else DefaultExpiry;
      && (info.bucketType == Public ==>
            GenerateSignedUrl(info.key, Some(Public), expiresIn, cfg, presign) == SignedUrl(r.0.url.value, None))
      && (info.bucketType == Private && presign(get, life).Presigned? ==>
            GenerateSignedUrl(info.key, Some(Private), expiresIn, cfg, presign) == SignedUrl(presign(get, life).url, Some(life)))
  {
  }

  /**
   Deleting or probing an uploaded object with the upload's bucket type and
   key addresses the bucket and key the put wrote.
   */
  lemma LaterCallsTargetUpload(file: Upload, opts: UploadOptions, cfg: BlobConfig, stamp: nat, random: seq<byte>,
                               send: Command -> SendOutcome, later: Command -> SendOutcome)
    requires UploadFile(file, opts, cfg, stamp, random, send).0.success
    ensures var r := UploadFile(file, opts, cfg, stamp, random, send);
      var info := r.0.fileInfo.value;
      var put := r.1.value;
      && DeleteObjectAt(info.key, Some(info.bucketType), cfg, later).1 == Some(DeleteObject(put.bucket, put.key))
      && (FileExists(info.key, Some(info.bucketType), cfg, later) == Checked(true) <==>
            later(GetObject(put.bucket, put.key)).Sent?)
  {
  }

  /** With no settings at all, the public base URL spells `undefined` where the names go. */
  lemma UnsetSettingsReadUndefined(privateBucket: Option<string>)
    ensures PublicBaseUrl(BlobConfig(None, privateBucket, None)) == "https://undefined.s3.undefined.amazonaws.com"
  {
  }
}
