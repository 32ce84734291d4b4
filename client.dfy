/** `gswrap.Client`: the active-bucket cache and the commands `ls`, `cp`
    and `rm`, over a storage service given as a map from bucket name to the
    bucket's keys in listing order. Local file contents and the transfers are
    not modelled; what the local filesystem looks like is a parameter. */
module GsWrap {

  import opened Errors
  import opened Strings
  import opened Paths
  import opened Urls
  import opened Listing
  import opened Buckets
  import opened CopyRemote
  import opened Upload
  import opened Download
  import opened Remove
  import opened LocalCopy

  /** What `cp` sees of the local filesystem: the paths that are regular
      files, the paths that are directories, and what `os.walk` of the
      source yields (its files, relative to it). */
  datatype LocalFs = LocalFs(files: set<string>, dirs: set<string>, walk: seq<seq<string>>)

  /** What a `cp` did: copies inside the storage service, uploads, a
      download plan, or a local copy. */
  datatype CpOutcome =
    | Copied(copies: seq<Copy>)
    | Uploaded(uploads: seq<Transfer>)
    | Downloaded(download: DownloadPlan)
    | CopiedLocally(action: LocalAction)

  /** `_change_bucket` asks the service again unless the active bucket has
      the requested name (also when there is no active bucket). */
  predicate Refetches(active: Option<string>, name: string) {
    active != Some(name)
  }

  /** The service requests of one `_change_bucket(name)`: the name, unless
      it is the active bucket already. */
  function Fetched(active: Option<string>, name: string): (names: seq<string>)
    ensures names == [] || names == [name]
    ensures names == [] <==> active == Some(name)
  {
    if Refetches(active, name) then [name] else []
  }

  /** The active bucket after `_change_bucket(name)`: the fetched bucket, or
      the previous one if the fetch failed. */
  function AfterChange(active: Option<string>, name: string, service: map<string, Keys>): (a: Option<string>)
    ensures a == Some(name) <==> active == Some(name) || name in service
    ensures a != Some(name) ==> a == active
  {
    if Refetches(active, name) && name in service then Some(name) else active
  }

  /** `ls`'s answer for a bucket: the merged listing of the query, each name
      as a `gs://<bucket>/<name>` URL. */
  ghost predicate IsLsResult(urls: seq<string>, bucket: string, keys: Keys, query: string, delimiter: string) {
    exists names ::
      && IsMerged(names, Objects(keys, query, delimiter), Prefixes(keys, query, delimiter))
      && |urls| == |names|
      && forall i :: 0 <= i < |names| ==> urls[i] == "gs://" + bucket + "/" + names[i]
  }

  class Client {
    /** The buckets of the project and their keys (the storage service). */
    var service: map<string, Keys>
    /** The name of `self._bucket`, the active bucket. */
    var active: Option<string>
    /** The bucket names the client asked the service for, in order. */
    ghost var requests: seq<string>

    ghost predicate Valid()
      reads this
    {
      && (active.Some? ==> active.value in service)
      && forall b :: b in service ==> Ascending(service[b])
    }

    /** `Client()`: no active bucket yet. */
    constructor(service: map<string, Keys>)
      requires forall b :: b in service ==> Ascending(service[b])
      ensures Valid()
      ensures this.service == service && active == None && requests == []
    {
      this.service := service;
      active := None;
      requests := [];
    }

    /** `_change_bucket`: fetch the bucket unless it is already active; a
        bucket the service does not have raises `NotFound`. */
    method ChangeBucket(name: string) returns (err: Option<Error>)
      requires Valid()
      modifies this
      ensures Valid()
      ensures service == old(service)
      ensures active == AfterChange(old(active), name, service)
      ensures requests == old(requests) + Fetched(old(active), name)
      ensures err.None? <==> name in service
      ensures err.Some? ==> err.value == BucketNotFound(name)
    {
      err := None;
      if active.None? || name != active.value {
        requests := requests + [name];
        if name in service {
          active := Some(name);
        } else {
          err := Some(BucketNotFound(name));
        }
      }
    }

    /** `ls`: the wildcard precondition, the cloud-URL check, then the
        merged listing of `_ls` with `gs://<bucket>/` in front. */
    method Ls(gcsUrl: string, recursive: bool) returns (r: Result<seq<string>>)
      requires Valid()
      modifies this
      ensures Valid() && service == old(service)
      ensures requests == old(requests) + AddressRequests(old(active), gcsUrl)
      ensures ContainsWildcard(gcsUrl) ==> r == Err(WildcardRejected(gcsUrl)) && active == old(active)
      ensures var url := Classify(gcsUrl);
              !ContainsWildcard(gcsUrl) && !url.isCloudUrl ==> r == Err(NotCloudUrl) && active == old(active)
      ensures var url := Classify(gcsUrl);
              !ContainsWildcard(gcsUrl) && url.isCloudUrl ==>
                && active == AfterChange(old(active), url.bucket, service)
                && (url.bucket !in service ==> r == Err(BucketNotFound(url.bucket)))
                && (url.bucket in service ==>
                      r.Ok? && IsLsResult(r.value, url.bucket, service[url.bucket], LsQuery(url.prefix), Delimiter(recursive)))
    {
      if ContainsWildcard(gcsUrl) {
        return Err(WildcardRejected(gcsUrl));
      }
      var url := Classify(gcsUrl);
      if !url.isCloudUrl {
        return Err(NotCloudUrl);
      }
      var err := ChangeBucket(url.bucket);
      if err.Some? {
        return Err(err.value);
      }
      var keys := service[url.bucket];
      var query := LsQuery(url.prefix);
      var delimiter := Delimiter(recursive);
      var names := ListFoundBlobs(Objects(keys, query, delimiter), Prefixes(keys, query, delimiter));
      var urls := AddUrlPrefix(url.bucket, names);
      return Ok(urls);
    }

    /** `rm`: the wildcard precondition, the cloud-URL check, the exact or
        recursive selection, then one deletion per selected blob. */
    method Rm(gcsUrl: string, recursive: bool) returns (err: Option<Error>)
      requires Valid()
      modifies this
      ensures Valid()
      ensures requests == old(requests) + AddressRequests(old(active), gcsUrl)
      ensures ContainsWildcard(gcsUrl) ==>
                err == Some(WildcardRejected(gcsUrl)) && service == old(service) && active == old(active)
      ensures var url := Classify(gcsUrl);
              !ContainsWildcard(gcsUrl) && !url.isCloudUrl ==>
                err == Some(NotCloudUrl) && service == old(service) && active == old(active)
      ensures var url := Classify(gcsUrl);
              !ContainsWildcard(gcsUrl) && url.isCloudUrl ==>
                && active == AfterChange(old(active), url.bucket, old(service))
                && (url.bucket !in old(service) ==> err == Some(BucketNotFound(url.bucket)) && service == old(service))
                && (url.bucket in old(service) ==>
                      match RmTargets(old(service)[url.bucket], url, recursive)
                      case Err(e) => err == Some(e) && service == old(service)
                      case Ok(gone) =>
                        err == None
                        && service == old(service)[url.bucket := Without(old(service)[url.bucket], Elements(gone))])
    {
      if ContainsWildcard(gcsUrl) {
        return Some(WildcardRejected(gcsUrl));
      }
      var url := Classify(gcsUrl);
      if !url.isCloudUrl {
        return Some(NotCloudUrl);
      }
      assert AddressRequests(active, gcsUrl) == Fetched(active, url.bucket);
      err := ChangeBucket(url.bucket);
      if err.Some? {
        return;
      }
      var keys := service[url.bucket];
      var targets := RmTargets(keys, url, recursive);
      if targets.Err? {
        return Some(targets.error);
      }
      Delete(url.bucket, targets.value);
    }

    /** `cp`: the wildcard preconditions on both arguments, then by the kind
        of the two addresses a copy inside the service, a download, an
        upload, or a local copy. */
    method Cp(src: string, dst: string, recursive: bool, noClobber: bool, fs: LocalFs) returns (r: Result<CpOutcome>)
      requires Valid()
      modifies this
      ensures Valid()
      ensures requests == old(requests) + CpRequests(old(active), old(service), src, dst, recursive, fs)
      ensures active == CpActive(old(active), old(service), src, dst, recursive, fs)
      ensures ContainsWildcard(src) ==> r == Err(WildcardRejected(src)) && service == old(service)
      ensures !ContainsWildcard(src) && ContainsWildcard(dst) ==> r == Err(WildcardRejected(dst)) && service == old(service)
      ensures var s := Classify(src);
              var d := Classify(dst);
              !ContainsWildcard(src) && !ContainsWildcard(dst) ==>
                && (s.isCloudUrl && d.isCloudUrl ==> CpRemoteDone(old(service), service, s, d, recursive, noClobber, r))
                && (s.isCloudUrl && !d.isCloudUrl ==> DownloadDone(old(service), service, s, d, recursive, noClobber, fs, r))
                && (!s.isCloudUrl && d.isCloudUrl ==> UploadDone(old(service), service, s, d, recursive, noClobber, fs, r))
                && (!s.isCloudUrl && !d.isCloudUrl ==>
                      service == old(service)
                      && r == LocalOutcome(src, dst, s, d, recursive, noClobber, fs))
    {
      if ContainsWildcard(src) {
        return Err(WildcardRejected(src));
      }
      if ContainsWildcard(dst) {
        return Err(WildcardRejected(dst));
      }
      var s := Classify(src);
      var d := Classify(dst);
      if s.isCloudUrl && d.isCloudUrl {
        r := CpRemote(s, d, recursive, noClobber);
      } else if s.isCloudUrl {
        r := CpDownload(s, d, recursive, noClobber, fs);
      } else if d.isCloudUrl {
        r := CpUpload(s, d, recursive, noClobber, fs);
      } else {
        var l := LocalCp(src, dst, AsPosix(s.prefix.path) in fs.files, AsPosix(s.prefix.path) in fs.dirs,
                         AsPosix(d.prefix.path) in fs.files || AsPosix(d.prefix.path) in fs.dirs, recursive, noClobber);
        r := if l.Ok? then Ok(CopiedLocally(l.value)) else Err(l.error);
      }
    }

    /** `_cp`: fetch the source bucket (through the cache) and the
        destination bucket (always), plan, and write every planned copy. */
    method CpRemote(s: UniformPath, d: UniformPath, recursive: bool, noClobber: bool) returns (r: Result<CpOutcome>)
      requires Valid() && s.prefix.path.Valid() && d.prefix.path.Valid()
      modifies this
      ensures Valid()
      ensures CpRemoteDone(old(service), service, s, d, recursive, noClobber, r)
      ensures requests == old(requests) + RemoteRequests(old(active), old(service), s, d)
      ensures active == AfterChange(old(active), s.bucket, old(service))
    {
      var err := ChangeBucket(s.bucket);
      if err.Some? {
        return Err(err.value);
      }
      requests := requests + [d.bucket];
      if d.bucket !in service {
        return Err(BucketNotFound(d.bucket));
      }
      var plan := PlanCp(service[s.bucket], Elements(service[d.bucket]), s, d, recursive, noClobber);
      if plan.Err? {
        return Err(plan.error);
      }
      var written := Write(d.bucket, Mapped(plan.value, (c: Copy) => c.target));
      r := Ok(Copied(plan.value));
    }

    /** `_download`: fetch the source bucket and plan the download; the
        service is not changed. */
    method CpDownload(s: UniformPath, d: UniformPath, recursive: bool, noClobber: bool, fs: LocalFs) returns (r: Result<CpOutcome>)
      requires Valid() && s.prefix.path.Valid() && d.prefix.path.Valid()
      modifies this
      ensures Valid()
      ensures DownloadDone(old(service), service, s, d, recursive, noClobber, fs, r)
      ensures requests == old(requests) + Fetched(old(active), s.bucket)
      ensures active == AfterChange(old(active), s.bucket, old(service))
    {
      var err := ChangeBucket(s.bucket);
      if err.Some? {
        return Err(err.value);
      }
      var plan := PlanDownload(service[s.bucket], s, d, recursive, noClobber, fs.files, fs.dirs);
      if plan.Err? {
        return Err(plan.error);
      }
      r := Ok(Downloaded(plan.value));
    }

    /** `_upload`: collect the files (which may fail first), fetch the
        destination bucket, plan, and write every planned upload. */
    method CpUpload(s: UniformPath, d: UniformPath, recursive: bool, noClobber: bool, fs: LocalFs) returns (r: Result<CpOutcome>)
      requires Valid() && s.prefix.path.Valid() && d.prefix.path.Valid()
      modifies this
      ensures Valid()
      ensures UploadDone(old(service), service, s, d, recursive, noClobber, fs, r)
      ensures requests == old(requests) + UploadRequests(old(active), s, d, recursive, fs)
      ensures active == UploadActive(old(active), old(service), s, d, recursive, fs)
    {
      var srcIsFile := AsPosix(s.prefix.path) in fs.files;
      var sources := UploadSources(s, srcIsFile, recursive, fs.walk);
      if sources.Err? {
        return Err(sources.error);
      }
      var err := ChangeBucket(d.bucket);
      if err.Some? {
        return Err(err.value);
      }
      var plan := PlanUpload(s, d, srcIsFile, recursive, fs.walk, Elements(service[d.bucket]), noClobber);
      var written := Write(d.bucket, Mapped(plan.value, (t: Transfer) => t.target));
      r := Ok(Uploaded(plan.value));
    }

    /** Deleting blobs from a bucket, one after another. */
    method Delete(bucket: string, gone: seq<string>)
      requires Valid() && bucket in service
      modifies this
      ensures Valid() && active == old(active) && requests == old(requests)
      ensures service == old(service)[bucket := Without(old(service)[bucket], Elements(gone))]
    {
      var left := DeleteEach(service[bucket], gone);
      service := service[bucket := left];
    }

    /** Writing objects into a bucket, one after another. */
    method Write(bucket: string, names: seq<string>) returns (keys: Keys)
      requires Valid() && bucket in service
      modifies this
      ensures Valid() && active == old(active) && requests == old(requests)
      ensures keys == InsertAll(old(service)[bucket], names)
      ensures service == old(service)[bucket := keys]
    {
      keys := InsertEach(service[bucket], names);
      service := service[bucket := keys];
    }
  }

  /** The write loop: every name inserted in turn. */
  method InsertEach(keys: Keys, names: seq<string>) returns (r: Keys)
    requires Ascending(keys)
    ensures r == InsertAll(keys, names) && Ascending(r)
  {
    r := keys;
    for i := 0 to |names|
      invariant r == InsertAll(keys, names[..i])
      invariant Ascending(r)
    {
      assert names[..i + 1][..i] == names[..i];
      InsertAscending(r, names[i]);
      r := Insert(r, names[i]);
    }
    assert names[..|names|] == names;
  }

  /** The delete loop of `rm`: every selected blob deleted in turn. */
  method DeleteEach(keys: Keys, gone: seq<string>) returns (r: Keys)
    requires Ascending(keys)
    ensures r == Without(keys, Elements(gone))
  {
    r := keys;
    assert Elements(gone[..0]) == {};
    AscendingUnique(Without(keys, {}), keys);
    for i := 0 to |gone|
      invariant r == Without(keys, Elements(gone[..i]))
    {
      WithoutTwice(keys, Elements(gone[..i]), {gone[i]});
      assert Elements(gone[..i + 1]) == Elements(gone[..i]) + {gone[i]};
      r := Without(r, {gone[i]});
    }
    assert gone[..|gone|] == gone;
  }

  /** The requests of `ls` and `rm`: the bucket of a cloud address without
      wildcards, through the cache. */
  function AddressRequests(active: Option<string>, url: string): (names: seq<string>)
    ensures ContainsWildcard(url) || !Classify(url).isCloudUrl ==> names == []
    ensures !ContainsWildcard(url) && Classify(url).isCloudUrl ==> names == Fetched(active, Classify(url).bucket)
  {
    if ContainsWildcard(url) || !Classify(url).isCloudUrl then [] else Fetched(active, Classify(url).bucket)
  }

  /** The requests of `_cp`: the source bucket through the cache, then the
      destination bucket always, unless the source was missing. */
  function RemoteRequests(active: Option<string>, service: map<string, Keys>, s: UniformPath, d: UniformPath): (names: seq<string>)
    ensures s.bucket in service ==> names == Fetched(active, s.bucket) + [d.bucket]
    ensures s.bucket !in service ==> names == Fetched(active, s.bucket)
  {
    Fetched(active, s.bucket) + (if s.bucket in service then [d.bucket] else [])
  }

  /** The requests of `_upload`: none when collecting the files fails,
      otherwise the destination bucket through the cache. */
  function UploadRequests(active: Option<string>, s: UniformPath, d: UniformPath, recursive: bool, fs: LocalFs): (names: seq<string>)
    requires s.prefix.path.Valid()
    ensures UploadSources(s, AsPosix(s.prefix.path) in fs.files, recursive, fs.walk).Err? ==> names == []
    ensures UploadSources(s, AsPosix(s.prefix.path) in fs.files, recursive, fs.walk).Ok? ==> names == Fetched(active, d.bucket)
  {
    if UploadSources(s, AsPosix(s.prefix.path) in fs.files, recursive, fs.walk).Err? then [] else Fetched(active, d.bucket)
  }

  /** The active bucket after `_upload`: unchanged when collecting the
      files fails, otherwise the destination bucket through the cache. */
  function UploadActive(active: Option<string>, service: map<string, Keys>, s: UniformPath, d: UniformPath,
                        recursive: bool, fs: LocalFs): (a: Option<string>)
    requires s.prefix.path.Valid()
    ensures UploadSources(s, AsPosix(s.prefix.path) in fs.files, recursive, fs.walk).Err? ==> a == active
    ensures UploadSources(s, AsPosix(s.prefix.path) in fs.files, recursive, fs.walk).Ok? ==>
              (a == Some(d.bucket) <==> active == Some(d.bucket) || d.bucket in service)
    ensures a != Some(d.bucket) ==> a == active
  {
    if UploadSources(s, AsPosix(s.prefix.path) in fs.files, recursive, fs.walk).Err? then active
    else AfterChange(active, d.bucket, service)
  }

  /** The active bucket after `cp`: the source bucket of a copy or a
      download, the destination bucket of an upload, each through the cache;
      a rejected call and a local copy leave it. */
  function CpActive(active: Option<string>, service: map<string, Keys>, src: string, dst: string,
                    recursive: bool, fs: LocalFs): (a: Option<string>)
    ensures ContainsWildcard(src) || ContainsWildcard(dst) ==> a == active
    ensures !Classify(src).isCloudUrl && !Classify(dst).isCloudUrl ==> a == active
    ensures !ContainsWildcard(src) && !ContainsWildcard(dst) && Classify(src).isCloudUrl ==>
              (a == Some(Classify(src).bucket) <==> active == Some(Classify(src).bucket) || Classify(src).bucket in service)
    ensures a == active || (a.Some? && a.value in service)
  {
    var s := Classify(src);
    var d := Classify(dst);
    if ContainsWildcard(src) || ContainsWildcard(dst) then active
    else if s.isCloudUrl then AfterChange(active, s.bucket, service)
    else if d.isCloudUrl then UploadActive(active, service, s, d, recursive, fs)
    else active
  }

  /** The requests of `cp`, by the kinds of its two addresses; a local copy asks for nothing. */
  function CpRequests(active: Option<string>, service: map<string, Keys>, src: string, dst: string,
                      recursive: bool, fs: LocalFs): (names: seq<string>)
    ensures ContainsWildcard(src) || ContainsWildcard(dst) ==> names == []
    ensures !Classify(src).isCloudUrl && !Classify(dst).isCloudUrl ==> names == []
  {
    var s := Classify(src);
    var d := Classify(dst);
    if ContainsWildcard(src) || ContainsWildcard(dst) then []
    else if s.isCloudUrl && d.isCloudUrl then RemoteRequests(active, service, s, d)
    else if s.isCloudUrl then Fetched(active, s.bucket)
    else if d.isCloudUrl then UploadRequests(active, s, d, recursive, fs)
    else []
  }

  /** The outcome and the new service state of `_cp`. */
  ghost predicate CpRemoteDone(service: map<string, Keys>, service': map<string, Keys>, s: UniformPath, d: UniformPath,
                               recursive: bool, noClobber: bool, r: Result<CpOutcome>)
    requires s.prefix.path.Valid() && d.prefix.path.Valid()
  {
    if s.bucket !in service then r == Err(BucketNotFound(s.bucket)) && service' == service
    else if d.bucket !in service then r == Err(BucketNotFound(d.bucket)) && service' == service
    else
      var listed := CpListing(service[s.bucket], s, recursive);
      if !recursive && |listed| > 1 then r == Err(NeedsRecursive) && service' == service
      else
        var copies := CpPlanned(listed, s, d, Elements(service[d.bucket]), noClobber);
        && r == Ok(Copied(copies))
        && service' == service[d.bucket := InsertAll(service[d.bucket], Mapped(copies, (c: Copy) => c.target))]
  }

  /** The outcome of `_download`: the plan, the error of writing the
      placeholder, or the `NotADirectoryError` of the first directory below
      a file; the service is unchanged. */
  ghost predicate DownloadDone(service: map<string, Keys>, service': map<string, Keys>, s: UniformPath, d: UniformPath,
                               recursive: bool, noClobber: bool, fs: LocalFs, r: Result<CpOutcome>)
    requires s.prefix.path.Valid() && d.prefix.path.Valid()
  {
    && service' == service
    && (s.bucket !in service ==> r == Err(BucketNotFound(s.bucket)))
    && (s.bucket in service && PlaceholderError(d, fs.files, fs.dirs).Some? ==>
          r == Err(PlaceholderError(d, fs.files, fs.dirs).value))
    && (s.bucket in service && PlaceholderError(d, fs.files, fs.dirs).None? ==>
          var blocked := BlockedDirs(service[s.bucket], s, d, recursive, fs.files, fs.dirs);
          && (blocked != {} ==> r.Err? && r.error.NotADirectory? && IsLeast(r.error.path, blocked))
          && (blocked == {} ==>
                r.Ok? && r.value.Downloaded? && IsDownloadPlan(r.value.download, service[s.bucket], s, d, recursive, noClobber, fs)))
  }

  /** What `PlanDownload` promises of its plan. */
  ghost predicate IsDownloadPlan(plan: DownloadPlan, keys: Keys, s: UniformPath, d: UniformPath,
                                 recursive: bool, noClobber: bool, fs: LocalFs)
    requires s.prefix.path.Valid() && d.prefix.path.Valid()
  {
    var dstPath := AsPosix(d.prefix.path);
    var isFile := fs.files + (if plan.placeholder then {dstPath} else {});
    var listed := DownloadListing(keys, s, recursive);
    && (plan.placeholder <==> dstPath !in fs.files && dstPath !in fs.dirs)
    && Ascending(plan.mkdirs)
    && Elements(plan.mkdirs) == NeededDirs(listed, ParentKey(s.prefix), d) - isFile
    && plan.fetches == Unclobbered(Named(listed, ParentKey(s.prefix), d, dstPath in isFile), fs.files + fs.dirs, noClobber)
  }

  /** The outcome and the new service state of `_upload`. */
  ghost predicate UploadDone(service: map<string, Keys>, service': map<string, Keys>, s: UniformPath, d: UniformPath,
                             recursive: bool, noClobber: bool, fs: LocalFs, r: Result<CpOutcome>)
    requires s.prefix.path.Valid() && d.prefix.path.Valid()
  {
    var srcIsFile := AsPosix(s.prefix.path) in fs.files;
    match UploadSources(s, srcIsFile, recursive, fs.walk)
    case Err(e) => r == Err(e) && service' == service
    case Ok(sources) =>
      if d.bucket !in service then r == Err(BucketNotFound(d.bucket)) && service' == service
      else
        var uploads := UploadPlanned(sources.files, sources.dir, s, d, srcIsFile, Elements(service[d.bucket]), noClobber);
        && r == Ok(Uploaded(uploads))
        && service' == service[d.bucket := InsertAll(service[d.bucket], Mapped(uploads, (t: Transfer) => t.target))]
  }

  /** The outcome of the local branch of `cp`. */
  function LocalOutcome(src: string, dst: string, s: UniformPath, d: UniformPath, recursive: bool, noClobber: bool,
                        fs: LocalFs): (r: Result<CpOutcome>)
    requires s.prefix.path.Valid() && d.prefix.path.Valid()
  {
    var l := LocalCp(src, dst, AsPosix(s.prefix.path) in fs.files, AsPosix(s.prefix.path) in fs.dirs,
                     AsPosix(d.prefix.path) in fs.files || AsPosix(d.prefix.path) in fs.dirs, recursive, noClobber);
    if l.Ok? then Ok(CopiedLocally(l.value)) else Err(l.error)
  }
}
