/** The legacy module `gs_wrap`. Its path value, wildcard scan, listing
    merge and copy renaming follow the same rules as `gswrap` and are the
    members of Paths, Urls, Listing and CopyRemote. What differs is modelled
    here: the classifier leaves a local path without a bucket, the client is
    created with an active bucket, `ls` takes `dont_recurse`, `_upload`
    names its keys by the number of files, and `rm` deletes every blob
    whose name starts with the address's key. */
module LegacyGsWrap {

  import opened Errors
  import opened Strings
  import opened Paths
  import opened Urls
  import opened Listing
  import opened Buckets
  import opened CopyRemote
  import opened Upload
  import opened Remove
  import GsWrap

  /** `UniformPath`: as `_UniformPath`, but a local path has no bucket
      (`None`) instead of the empty name. */
  datatype LegacyPath = LegacyPath(isCloudUrl: bool, bucket: Option<string>, prefix: GcsPath)

  /** `UniformPath(link)`. */
  function LegacyClassify(link: string): (u: LegacyPath)
    ensures u.prefix.path.Valid()
    ensures u.isCloudUrl <==> StartsWith(link, "gs://")
    ensures u.isCloudUrl <==> u.bucket.Some?
    ensures u.bucket.Some? ==>
              && StartsWith(link, "gs://" + u.bucket.value)
              && '/' !in u.bucket.value
              && u.prefix == FromString(link[5 + |u.bucket.value|..])
    ensures !u.isCloudUrl ==> u.prefix == FromString(link)
  {
    var c := Classify(link);
    LegacyPath(c.isCloudUrl, if c.isCloudUrl then Some(c.bucket) else None, c.prefix)
  }

  /** `gs://<bucket>/<key>` comes apart into the bucket and a prefix that
      renders back as the key; a local path built from segments has no
      bucket and keeps its segments. */
  lemma {:induction false} LegacyRoundTrip(bucket: string, segs: seq<string>, trailing: bool)
    requires '/' !in bucket
    requires forall i :: 0 <= i < |segs| ==> IsSegment(segs[i])
    requires segs == [] ==> !trailing
    ensures var key := Join(segs) + (if trailing then "/" else "");
            var u := LegacyClassify("gs://" + bucket + "/" + key);
            && u.bucket == Some(bucket)
            && ConvertToPosix(u.prefix, u.prefix.hadTrailingBackslash, true, true) == key
    ensures segs != [] ==>
              var u := LegacyClassify(Join(segs));
              u.bucket == None && u.prefix.path == Path(false, segs)
  {
    CloudRoundTrip(bucket, segs, trailing);
    if segs != [] {
      NotCloudScheme(segs, false, false);
      assert "" + Join(segs) + "" == Join(segs);
      ParsesBack(Path(false, segs), false);
      assert AsPosix(Path(false, segs)) + "" == Join(segs);
    }
  }

  /** The query of the legacy `_ls`: as in `gswrap`, with the delimiter
      '/' exactly when `dont_recurse`. */
  function LegacyDelimiter(dontRecurse: bool): (d: string)
    ensures d == "/" <==> dontRecurse
    ensures d == Delimiter(!dontRecurse)
  {
    if dontRecurse then "/" else ""
  }

  /** The blobs the legacy `rm` deletes: every blob whose name starts with
      the key, rendered with a trailing '/' only when the address had one;
      no exact-object lookup, no recursion flag, no error when nothing
      matches. */
  function LegacyRmTargets(keys: Keys, url: UniformPath): (r: Result<seq<string>>)
    requires url.prefix.path.Valid()
    ensures !url.isCloudUrl ==> r == Err(NotCloudUrl)
    ensures url.isCloudUrl ==> r.Ok? && forall k :: k in r.value <==> k in keys && StartsWith(k, ExactKey(url))
    ensures url.isCloudUrl && Ascending(keys) ==> Ascending(r.value)
    ensures url.isCloudUrl && url.prefix.path.segments == [] ==> Elements(r.value) == Elements(keys)
  {
    if !url.isCloudUrl then Err(NotCloudUrl)
    else Ok(Objects(keys, ExactKey(url), ""))
  }

  /** Without a trailing '/', the legacy `rm` deletes everything the
      current recursive `rm` deletes, and also the siblings that merely
      extend the key's text (`<key>x...`), which the current one spares. */
  lemma {:induction false} LegacyRmTakesSiblings(keys: Keys, url: UniformPath, sibling: string)
    requires url.prefix.path.Valid() && url.isCloudUrl && url.prefix.path.segments != []
    requires !url.prefix.hadTrailingBackslash
    requires sibling in keys && StartsWith(sibling, Join(url.prefix.path.segments))
    requires |sibling| > |Join(url.prefix.path.segments)| && sibling[|Join(url.prefix.path.segments)|] != '/'
    ensures Elements(RmTargets(keys, url, true).value) <= Elements(LegacyRmTargets(keys, url).value)
    ensures sibling in LegacyRmTargets(keys, url).value
    ensures sibling !in RmTargets(keys, url, true).value
  {
    var key := Join(url.prefix.path.segments);
    assert ExactKey(url) == key;
    assert LsQuery(url.prefix) == key + "/";
    forall k | k in RmTargets(keys, url, true).value
      ensures k in LegacyRmTargets(keys, url).value
    {
      if k != key {
        assert k in Objects(keys, TreePrefix(url), "");
        assert k[..|key|] == (key + "/")[..|key|];
      }
    }
    RmSparesSiblings(keys, url, sibling);
  }

  /** With a trailing '/', the legacy `rm` deletes exactly what the current
      recursive `rm` deletes: the blobs below `<key>/`. */
  lemma {:induction false} LegacyRmTrailingAsCurrent(keys: Keys, url: UniformPath)
    requires url.prefix.path.Valid() && url.isCloudUrl && url.prefix.path.segments != []
    requires url.prefix.hadTrailingBackslash
    ensures Elements(LegacyRmTargets(keys, url).value) == Elements(RmTargets(keys, url, true).value)
  {
    var key := Join(url.prefix.path.segments);
    assert ExactKey(url) == key + "/";
    assert TreePrefix(url) == key + "/";
    var listed := Objects(keys, key + "/", "");
    assert LegacyRmTargets(keys, url).value == listed;
    assert RmTargets(keys, url, true).value == listed + (if key + "/" in keys then [key + "/"] else []);
    if key + "/" in keys {
      assert StartsWith(key + "/", key + "/");
      assert key + "/" in listed;
    }
  }

  /** Without no-clobber, the upload loop submits one upload per entry of
      `upload_files`, in order. */
  lemma UploadsAll(files: seq<string>, dir: Path, src: UniformPath, dst: UniformPath, named: bool,
                   dstKeys: set<string>)
    requires dir.Valid() && src.prefix.path.Valid() && dst.prefix.path.Valid()
    ensures var plan := UploadPlanned(files, dir, src, dst, named, dstKeys, false);
            |plan| == |files| && forall k :: 0 <= k < |files| ==> plan[k] == UploadOf(files[k], dir, src, dst, named)
  {
    AdmittedAll(Uploads(files, dir, src, dst, named), dstKeys);
  }

  /** The legacy `_upload`: a file source is sent by its name from its
      parent directory, any other source is walked (there is no recursion
      flag); each key follows the current naming rule with "the source is a
      file" replaced by "there is exactly one file". Nothing is skipped. */
  method PlanLegacyUpload(src: UniformPath, dst: UniformPath, srcIsFile: bool, walk: seq<seq<string>>)
    returns (plan: seq<Transfer>)
    requires src.prefix.path.Valid() && dst.prefix.path.Valid()
    ensures var s := UploadSources(src, srcIsFile, true, walk).value;
            plan == UploadPlanned(s.files, s.dir, src, dst, |s.files| == 1, {}, false)
  {
    var uploadFiles: seq<string>;
    var dir := src.prefix.path;
    if srcIsFile {
      uploadFiles := [Name(dir)];
      dir := Parent(dir);
    } else {
      uploadFiles := CollectWalked(walk, WalkTop(src), src.isCloudUrl);
    }
    assert UploadSources(src, srcIsFile, true, walk) == Ok(Sources(uploadFiles, dir));
    plan := SubmitUploads(uploadFiles, dir, src, dst, |uploadFiles| == 1, {}, false);
  }

  /** A file source is uploaded exactly as the current `_upload` uploads it
      without no-clobber. */
  lemma {:induction false} LegacyFileUploadAsCurrent(src: UniformPath, dst: UniformPath, walk: seq<seq<string>>,
                                                     dstKeys: set<string>)
    requires src.prefix.path.Valid() && dst.prefix.path.Valid()
    ensures var s := UploadSources(src, true, true, walk).value;
            UploadPlanned(s.files, s.dir, src, dst, |s.files| == 1, {}, false)
            == UploadPlanned(s.files, s.dir, src, dst, true, dstKeys, false)
  {
    var s := UploadSources(src, true, true, walk).value;
    UploadsAll(s.files, s.dir, src, dst, true, {});
    UploadsAll(s.files, s.dir, src, dst, true, dstKeys);
  }

  /** A file found by walking a local directory is read from
      `<src>/<relative path>` and goes to: exactly the destination when it is
      the only file and the destination has no trailing '/';
      `<dst>/<directory name>/<relative path>` when there are several files
      and the destination has a trailing '/'; `<dst>/<relative path>`
      otherwise. (With the corrected first-occurrence cut of the walk's top.) */
  lemma {:induction false} LegacyWalkedUpload(src: UniformPath, dst: UniformPath, walk: seq<seq<string>>, k: nat)
    requires src.prefix.path.Valid() && dst.prefix.path.Valid()
    requires !src.isCloudUrl && IsWalk(walk) && k < |walk|
    ensures var s := UploadSources(src, false, true, walk).value;
            var plan := UploadPlanned(s.files, s.dir, src, dst, |s.files| == 1, {}, false);
            var trailing := dst.prefix.hadTrailingBackslash;
            && |plan| == |walk|
            && plan[k].localFile == AsPosix(Path(src.prefix.path.absolute, src.prefix.path.segments + walk[k]))
            && (|walk| == 1 && !trailing ==> plan[k].target == CloudKey(dst.prefix.path))
            && (trailing && |walk| != 1 ==>
                  plan[k].target == Join(dst.prefix.path.segments + NameSegments(src.prefix.path) + walk[k]))
            && ((|walk| == 1) == trailing ==> plan[k].target == Join(dst.prefix.path.segments + walk[k]))
  {
    var s := UploadSources(src, false, true, walk).value;
    var named := |s.files| == 1;
    var rel := walk[k];
    UploadsAll(s.files, s.dir, src, dst, named, {});
    WalkedFileNames(src, dst, walk, k);
    assert s.files[k] == Join(rel);
    assert s.dir == src.prefix.path;
    RelativeNameRenders(rel);
    JoinSegments(src.prefix.path, rel);
    var b := UploadBlobPath(Join(rel), src, dst, named);
    if named == dst.prefix.hadTrailingBackslash {
      assert b.segments == dst.prefix.path.segments + rel;
    } else if !named {
      assert b.segments == dst.prefix.path.segments + NameSegments(src.prefix.path) + rel;
    }
  }

  /** `GoogleCloudStorageClient`: always has an active bucket. */
  class LegacyClient {
    /** The buckets of the project and their keys (the storage service). */
    var service: map<string, Keys>
    /** The name of `self._bucket`. */
    var active: string
    /** The bucket names the client asked the service for, in order. */
    ghost var requests: seq<string>

    ghost predicate Valid()
      reads this
    {
      && active in service
      && forall b :: b in service ==> Ascending(service[b])
    }

    /** `GoogleCloudStorageClient(bucket_name)`: the named bucket is fetched
        and becomes the active one. */
    constructor(service: map<string, Keys>, bucketName: string)
      requires bucketName in service
      requires forall b :: b in service ==> Ascending(service[b])
      ensures Valid()
      ensures this.service == service && active == bucketName && requests == [bucketName]
    {
      this.service := service;
      active := bucketName;
      requests := [bucketName];
    }

    /** `change_bucket`: fetch the bucket unless it is the active one, and
        return the active bucket. */
    method ChangeBucket(name: string) returns (r: Result<string>)
      requires Valid()
      modifies this
      ensures Valid() && service == old(service)
      ensures requests == old(requests) + (if name != old(active) then [name] else [])
      ensures r.Ok? <==> name == old(active) || name in service
      ensures r.Ok? ==> r.value == name && active == name
      ensures r.Err? ==> r.error == BucketNotFound(name) && active == old(active)
    {
      if name != active {
        requests := requests + [name];
        if name !in service {
          return Err(BucketNotFound(name));
        }
        active := name;
      }
      return Ok(active);
    }

    /** `ls`: the wildcard precondition, the cloud-URL check, then the
        merged listing of `_ls` with `gs://<bucket>/` in front. */
    method Ls(link: string, dontRecurse: bool) returns (r: Result<seq<string>>)
      requires Valid()
      modifies this
      ensures Valid() && service == old(service)
      ensures requests == old(requests) + LegacyAddressRequests(old(active), link)
      ensures ContainsWildcard(link) ==> r == Err(WildcardRejected(link)) && active == old(active)
      ensures var url := LegacyClassify(link);
              !ContainsWildcard(link) && !url.isCloudUrl ==> r == Err(NotCloudUrl) && active == old(active)
      ensures var url := Classify(link);
              !ContainsWildcard(link) && url.isCloudUrl ==>
                && (url.bucket !in service ==> r == Err(BucketNotFound(url.bucket)) && active == old(active))
                && (url.bucket in service ==>
                      && active == url.bucket
                      && r.Ok?
                      && GsWrap.IsLsResult(r.value, url.bucket, service[url.bucket], LsQuery(url.prefix),
                                           LegacyDelimiter(dontRecurse)))
    {
      if ContainsWildcard(link) {
        return Err(WildcardRejected(link));
      }
      var url := Classify(link);
      if !url.isCloudUrl {
        return Err(NotCloudUrl);
      }
      var bucket := ChangeBucket(url.bucket);
      if bucket.Err? {
        return Err(bucket.error);
      }
      var keys := service[url.bucket];
      var query := LsQuery(url.prefix);
      var delimiter := LegacyDelimiter(dontRecurse);
      var names := ListFoundBlobs(Objects(keys, query, delimiter), Prefixes(keys, query, delimiter));
      var urls := AddUrlPrefix(url.bucket, names);
      return Ok(urls);
    }

    /** `rm`: the wildcard precondition, the cloud-URL check, then one
        deletion per blob listed under the key. */
    method Rm(link: string) returns (err: Option<Error>)
      requires Valid()
      modifies this
      ensures Valid()
      ensures requests == old(requests) + LegacyAddressRequests(old(active), link)
      ensures ContainsWildcard(link) ==>
                err == Some(WildcardRejected(link)) && service == old(service) && active == old(active)
      ensures var url := LegacyClassify(link);
              !ContainsWildcard(link) && !url.isCloudUrl ==>
                err == Some(NotCloudUrl) && service == old(service) && active == old(active)
      ensures var url := Classify(link);
              !ContainsWildcard(link) && url.isCloudUrl ==>
                && (url.bucket !in old(service) ==>
                      err == Some(BucketNotFound(url.bucket)) && service == old(service) && active == old(active))
                && (url.bucket in old(service) ==>
                      && err == None
                      && active == url.bucket
                      && service == old(service)[url.bucket := Without(old(service)[url.bucket],
                                                                       Elements(LegacyRmTargets(old(service)[url.bucket], url).value))])
    {
      if ContainsWildcard(link) {
        return Some(WildcardRejected(link));
      }
      var url := Classify(link);
      if !url.isCloudUrl {
        return Some(NotCloudUrl);
      }
      var bucket := ChangeBucket(url.bucket);
      if bucket.Err? {
        return Some(bucket.error);
      }
      var keys := service[url.bucket];
      var targets := LegacyRmTargets(keys, url);
      var left := GsWrap.DeleteEach(keys, targets.value);
      service := service[url.bucket := left];
      return None;
    }
  }

  /** The requests of the legacy `ls` and `rm`: the bucket of a cloud
      address without wildcards, unless it is the active one. */
  function LegacyAddressRequests(active: string, link: string): (names: seq<string>)
    ensures ContainsWildcard(link) || !LegacyClassify(link).isCloudUrl ==> names == []
    ensures !ContainsWildcard(link) && LegacyClassify(link).isCloudUrl ==>
              && (names == [] || names == [LegacyClassify(link).bucket.value])
              && (names == [] <==> LegacyClassify(link).bucket == Some(active))
  {
    var url := Classify(link);
    if ContainsWildcard(link) || !url.isCloudUrl || url.bucket == active then [] else [url.bucket]
  }
}
