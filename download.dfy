/** Downloading (`_download`): which blobs are fetched, the local file each
    one is written to, and the directories created first. The local
    filesystem is given as the sets of paths that are regular files and
    directories before the call; the transfers themselves are not modelled. */
module Download {

  import opened Errors
  import opened Strings
  import opened Paths
  import opened Urls
  import opened Listing
  import opened CopyRemote

  /** The key of the source's parent: what `_download` cuts off every listed
      name and every listed name's parent. */
  function ParentKey(src: GcsPath): (k: string)
    requires src.path.Valid()
    ensures k == Join(Parent(src.path).segments)
  {
    CloudKey(Parent(src.path))
  }

  /** The blobs `_download` lists: objects under the source key, with the
      delimiter of the copy mode. */
  function DownloadListing(keys: Keys, src: UniformPath, recursive: bool): (listed: seq<string>)
    requires src.prefix.path.Valid()
    ensures forall b :: b in listed <==> b in keys && IsObject(b, SourceKey(src.prefix), Delimiter(recursive))
    ensures Ascending(keys) ==> Ascending(listed)
  {
    Objects(keys, SourceKey(src.prefix), Delimiter(recursive))
  }

  /** A name relative to the source's parent: the first occurrence of the
      parent key cut out, rendered without a leading '/' (see the findings
      for the replacement of every occurrence). */
  function DownloadName(name: string, parentKey: string): string {
    ConvertToPosix(FromString(ReplaceFirst(name, parentKey, "")), false, true, true)
  }

  /** The local file a blob is written to: the destination itself when it
      is a file (or the placeholder written for a missing destination),
      otherwise the blob's name relative to the source's parent below it. */
  function DownloadFilename(blobName: string, parentKey: string, dst: UniformPath, dstIsFile: bool): string {
    if dstIsFile then AsPosix(dst.prefix.path)
    else AsPosix(JoinStr(dst.prefix.path, DownloadName(blobName, parentKey)))
  }

  /** The directory `_download` creates for a blob: its parent's name
      relative to the source's parent, below the destination (see the
      findings for the text substitution the source performs). */
  function ParentDir(blobName: string, parentKey: string, dst: UniformPath): string {
    var parentStr := AsPosix(Parent(Parse(blobName)));
    AsPosix(JoinStr(dst.prefix.path, DownloadName(parentStr, parentKey)))
  }

  /** `parent_dir_set` for the listed blobs. */
  function NeededDirs(listed: seq<string>, parentKey: string, dst: UniformPath): (dirs: set<string>)
    ensures forall b :: b in listed ==> ParentDir(b, parentKey, dst) in dirs
    ensures forall d :: d in dirs ==> exists b :: b in listed && d == ParentDir(b, parentKey, dst)
  {
    set b | b in listed :: ParentDir(b, parentKey, dst)
  }

  /** One download: the blob fetched and the local file written. */
  datatype Fetch = Fetch(blob: string, filename: string)

  /** Every listed blob with the file it is written to, in listing order. */
  function Named(listed: seq<string>, parentKey: string, dst: UniformPath, dstIsFile: bool): (named: seq<Fetch>)
    ensures |named| == |listed|
    ensures forall i :: 0 <= i < |listed| ==> named[i] == Fetch(listed[i], DownloadFilename(listed[i], parentKey, dst, dstIsFile))
  {
    Mapped(listed, b => Fetch(b, DownloadFilename(b, parentKey, dst, dstIsFile)))
  }

  /** The downloads `_download` submits: the named blobs in order, skipping
      under no-clobber those whose file already existed before the call. */
  function Unclobbered(named: seq<Fetch>, existing: set<string>, noClobber: bool): (kept: seq<Fetch>)
    ensures |kept| <= |named|
    ensures forall f :: f in kept <==> f in named && !(noClobber && f.filename in existing)
  {
    Filtered(named, (f: Fetch) => noClobber && f.filename in existing)
  }

  lemma UnclobberedStep(named: seq<Fetch>, f: Fetch, existing: set<string>, noClobber: bool)
    ensures Unclobbered(named + [f], existing, noClobber)
            == Unclobbered(named, existing, noClobber) + (if noClobber && f.filename in existing then [] else [f])
  {
    FilteredStep(named, f, (f: Fetch) => noClobber && f.filename in existing);
  }

  /** Without no-clobber every named download is submitted, in order. */
  lemma ClobberKeepsAll(named: seq<Fetch>, existing: set<string>)
    ensures Unclobbered(named, existing, false) == named
  {
    FilteredNone(named, (f: Fetch) => false && f.filename in existing);
  }

  /** What `_download` does: whether it writes the placeholder file for a
      missing destination, the directories it creates (in order), and the
      downloads it submits. */
  datatype DownloadPlan = DownloadPlan(placeholder: bool, mkdirs: seq<string>, fetches: seq<Fetch>)

  /** The paths that are regular files once `_download` has written the
      placeholder for a missing destination. */
  function FilesAfter(dst: UniformPath, files: set<string>, dirs: set<string>): (isFile: set<string>)
    ensures var dstPath := AsPosix(dst.prefix.path);
            isFile == if dstPath !in files && dstPath !in dirs then files + {dstPath} else files
  {
    var dstPath := AsPosix(dst.prefix.path);
    files + (if dstPath !in files && dstPath !in dirs then {dstPath} else {})
  }

  /** `dir` lies below one of the files, so `mkdir(parents=True)` of it,
      or opening it for writing, raises `NotADirectoryError`. */
  predicate BelowFile(dir: string, isFile: set<string>) {
    exists f | f in isFile :: StartsWith(dir, f + "/")
  }

  /** What writing the placeholder for a missing destination raises before
      anything is listed: `NotADirectoryError` when the destination lies
      below a file, `FileNotFoundError` when its parent is neither `.`, `/`
      nor an existing directory. */
  function PlaceholderError(dst: UniformPath, files: set<string>, dirs: set<string>): (e: Option<Error>)
    // an existing destination is not written
    ensures var dstPath := AsPosix(dst.prefix.path);
            dstPath in files || dstPath in dirs ==> e.None?
    ensures var dstPath := AsPosix(dst.prefix.path);
            dstPath !in files && dstPath !in dirs ==>
              && (e == Some(NotADirectory(dstPath)) <==> BelowFile(dstPath, files))
              && (e == Some(FileNotFound(dstPath)) <==>
                    !BelowFile(dstPath, files) && Parent(dst.prefix.path).segments != []
                    && AsPosix(Parent(dst.prefix.path)) !in dirs)
              && (e.None? || e == Some(NotADirectory(dstPath)) || e == Some(FileNotFound(dstPath)))
  {
    var dstPath := AsPosix(dst.prefix.path);
    var parent := Parent(dst.prefix.path);
    if dstPath in files || dstPath in dirs then None
    else if BelowFile(dstPath, files) then Some(NotADirectory(dstPath))
    else if parent.segments != [] && AsPosix(parent) !in dirs then Some(FileNotFound(dstPath))
    else None
  }

  /** The directories `_download` tries to create but cannot: the needed
      ones that are not files and lie below a file. */
  function BlockedDirs(keys: Keys, src: UniformPath, dst: UniformPath, recursive: bool,
                       files: set<string>, dirs: set<string>): (blocked: set<string>)
    requires src.prefix.path.Valid()
    ensures var isFile := FilesAfter(dst, files, dirs);
            forall d :: d in blocked <==>
              d in NeededDirs(DownloadListing(keys, src, recursive), ParentKey(src.prefix), dst)
              && d !in isFile && BelowFile(d, isFile)
  {
    var isFile := FilesAfter(dst, files, dirs);
    set d | d in NeededDirs(DownloadListing(keys, src, recursive), ParentKey(src.prefix), dst)
              && d !in isFile && BelowFile(d, isFile)
  }

  /** `x` is the first of `s` in Python's string order. */
  predicate IsLeast(x: string, s: set<string>) {
    x in s && forall d :: d in s ==> !Less(d, x)
  }

  /** `_download`. `files` and `dirs` are the local paths that are regular
      files and directories before the call. Writing the placeholder can
      fail first; then the mkdir loop raises `NotADirectoryError` at the
      first directory below a file. After either failure nothing is
      downloaded. */
  method PlanDownload(keys: Keys, src: UniformPath, dst: UniformPath, recursive: bool, noClobber: bool,
                      files: set<string>, dirs: set<string>)
    returns (r: Result<DownloadPlan>)
    requires src.prefix.path.Valid() && dst.prefix.path.Valid()
    // the placeholder's error comes first
    ensures PlaceholderError(dst, files, dirs).Some? ==> r == Err(PlaceholderError(dst, files, dirs).value)
    // then the download fails exactly when some needed directory lies below a file
    ensures var blocked := BlockedDirs(keys, src, dst, recursive, files, dirs);
            PlaceholderError(dst, files, dirs).None? ==>
              && (r.Err? <==> blocked != {})
              && (r.Err? ==> r.error.NotADirectory? && IsLeast(r.error.path, blocked))
    // a missing destination becomes a file
    ensures var dstPath := AsPosix(dst.prefix.path);
            r.Ok? ==> (r.value.placeholder <==> dstPath !in files && dstPath !in dirs)
    // every needed directory that is not a file, once each, in ascending order
    ensures var isFile := FilesAfter(dst, files, dirs);
            r.Ok? ==>
              && Ascending(r.value.mkdirs)
              && Elements(r.value.mkdirs) == NeededDirs(DownloadListing(keys, src, recursive), ParentKey(src.prefix), dst) - isFile
    // one download per listed blob, except those no-clobber protects
    ensures var dstIsFile := AsPosix(dst.prefix.path) in FilesAfter(dst, files, dirs);
            r.Ok? ==>
              r.value.fetches == Unclobbered(Named(DownloadListing(keys, src, recursive), ParentKey(src.prefix), dst, dstIsFile),
                                             files + dirs, noClobber)
  {
    var dstPath := AsPosix(dst.prefix.path);
    var placeholder := dstPath !in files && dstPath !in dirs;
    var written := PlaceholderError(dst, files, dirs);
    if written.Some? {
      return Err(written.value);
    }
    var isFile := files + (if placeholder then {dstPath} else {});
    var listed := DownloadListing(keys, src, recursive);
    var parentKey := ParentKey(src.prefix);
    var parentDirSet := CollectParentDirs(listed, parentKey, dst);
    var parentDirList := SortNames(parentDirSet);
    var mkdirs, failed := SelectMissingDirs(parentDirList, isFile);
    if failed.Some? {
      return Err(NotADirectory(failed.value));
    }
    var fetches := SubmitDownloads(listed, parentKey, dst, dstPath in isFile, files + dirs, noClobber);
    r := Ok(DownloadPlan(placeholder, mkdirs, fetches));
  }

  /** The loop that fills `parent_dir_set`. */
  method CollectParentDirs(listed: seq<string>, parentKey: string, dst: UniformPath) returns (dirs: set<string>)
    ensures dirs == NeededDirs(listed, parentKey, dst)
  {
    dirs := {};
    for i := 0 to |listed|
      invariant dirs == NeededDirs(listed[..i], parentKey, dst)
    {
      assert forall b :: b in listed[..i + 1] <==> b in listed[..i] || b == listed[i];
      dirs := dirs + {ParentDir(listed[i], parentKey, dst)};
    }
    assert listed[..|listed|] == listed;
  }

  /** The `mkdir` loop: the sorted directories, skipping those that are
      files, up to the first one below a file, where `mkdir` raises. */
  method SelectMissingDirs(sorted: seq<string>, isFile: set<string>) returns (mkdirs: seq<string>, failed: Option<string>)
    requires Ascending(sorted)
    ensures Ascending(mkdirs)
    ensures failed.None? <==> forall d :: d in sorted && d !in isFile ==> !BelowFile(d, isFile)
    ensures failed.None? ==> Elements(mkdirs) == Elements(sorted) - isFile
    ensures failed.Some? ==>
              && failed.value in sorted && failed.value !in isFile && BelowFile(failed.value, isFile)
              && (forall d :: d in sorted && d !in isFile && BelowFile(d, isFile) ==> !Less(d, failed.value))
              && Elements(mkdirs) == (set d | d in sorted && Less(d, failed.value)) - isFile
  {
    mkdirs := [];
    for i := 0 to |sorted|
      invariant Ascending(mkdirs)
      invariant Elements(mkdirs) == Elements(sorted[..i]) - isFile
      invariant forall k, j :: 0 <= k < |mkdirs| && i <= j < |sorted| ==> Less(mkdirs[k], sorted[j])
      invariant forall j :: 0 <= j < i && sorted[j] !in isFile ==> !BelowFile(sorted[j], isFile)
    {
      assert Elements(sorted[..i + 1]) == Elements(sorted[..i]) + {sorted[i]};
      if sorted[i] !in isFile {
        if BelowFile(sorted[i], isFile) {
          BeforeIndex(sorted, i);
          EarlierUnblocked(sorted, i, isFile);
          failed := Some(sorted[i]);
          return;
        }
        AppendAscending(sorted, i, mkdirs);
        mkdirs := mkdirs + [sorted[i]];
      }
    }
    assert sorted[..|sorted|] == sorted;
    failed := None;
  }

  /** In an ascending sequence, the elements before index `i` are exactly
      those below `sorted[i]`. */
  lemma BeforeIndex(sorted: seq<string>, i: nat)
    requires Ascending(sorted) && i < |sorted|
    ensures Elements(sorted[..i]) == set d | d in sorted && Less(d, sorted[i])
  {
    forall d | d in sorted && Less(d, sorted[i]) ensures d in sorted[..i] {
      var j :| 0 <= j < |sorted| && sorted[j] == d;
      if j == i {
        LessIrreflexive(d);
      } else if j > i {
        LessAsymmetric(sorted[i], d);
      }
    }
  }

  /** When every directory before index `i` could be created, no directory
      below a file comes before `sorted[i]`. */
  lemma EarlierUnblocked(sorted: seq<string>, i: nat, isFile: set<string>)
    requires Ascending(sorted) && i < |sorted|
    requires forall j :: 0 <= j < i && sorted[j] !in isFile ==> !BelowFile(sorted[j], isFile)
    ensures forall d :: d in sorted && d !in isFile && BelowFile(d, isFile) ==> !Less(d, sorted[i])
  {
    forall d | d in sorted && d !in isFile && BelowFile(d, isFile) ensures !Less(d, sorted[i]) {
      var j :| 0 <= j < |sorted| && sorted[j] == d;
      if j == i {
        LessIrreflexive(d);
      } else if j > i {
        LessAsymmetric(sorted[i], d);
      }
    }
  }

  /** Appending the next element of an ascending sequence to a selection of
      the earlier ones keeps the selection ascending and below the rest. */
  lemma AppendAscending(sorted: seq<string>, i: nat, picked: seq<string>)
    requires Ascending(sorted) && i < |sorted|
    requires Ascending(picked)
    requires forall k, j :: 0 <= k < |picked| && i <= j < |sorted| ==> Less(picked[k], sorted[j])
    ensures Ascending(picked + [sorted[i]])
    ensures forall k, j :: 0 <= k < |picked + [sorted[i]]| && i + 1 <= j < |sorted| ==> Less((picked + [sorted[i]])[k], sorted[j])
  {
    var t := picked + [sorted[i]];
    forall a, b | 0 <= a < b < |t| ensures Less(t[a], t[b]) {
      if b < |picked| {
        assert t[a] == picked[a] && t[b] == picked[b];
      } else {
        assert t[a] == picked[a] && t[b] == sorted[i];
      }
    }
  }

  /** The download loop of `_download`. */
  method SubmitDownloads(listed: seq<string>, parentKey: string, dst: UniformPath, dstIsFile: bool,
                         existing: set<string>, noClobber: bool) returns (plan: seq<Fetch>)
    ensures plan == Unclobbered(Named(listed, parentKey, dst, dstIsFile), existing, noClobber)
  {
    plan := [];
    for i := 0 to |listed|
      invariant plan == Unclobbered(Named(listed[..i], parentKey, dst, dstIsFile), existing, noClobber)
    {
      var f := Fetch(listed[i], DownloadFilename(listed[i], parentKey, dst, dstIsFile));
      NamedStep(listed, i, parentKey, dst, dstIsFile, f);
      UnclobberedStep(Named(listed[..i], parentKey, dst, dstIsFile), f, existing, noClobber);
      plan := plan + (if noClobber && f.filename in existing then [] else [f]);
    }
    assert listed[..|listed|] == listed;
  }

  lemma NamedStep(listed: seq<string>, i: nat, parentKey: string, dst: UniformPath, dstIsFile: bool, f: Fetch)
    requires i < |listed| && f == Fetch(listed[i], DownloadFilename(listed[i], parentKey, dst, dstIsFile))
    ensures Named(listed[..i + 1], parentKey, dst, dstIsFile) == Named(listed[..i], parentKey, dst, dstIsFile) + [f]
  {
    MappedStep(listed, i, b => Fetch(b, DownloadFilename(b, parentKey, dst, dstIsFile)));
  }

  /** Cutting the first occurrence of the parent key out of the rendering
      of `<parent>/<rel>` leaves `rel`, also when the parent is the bucket
      root or `rel` is empty. */
  lemma StripParent(parent: seq<string>, rel: seq<string>)
    requires forall j :: 0 <= j < |parent| ==> IsSegment(parent[j])
    requires forall j :: 0 <= j < |rel| ==> IsSegment(rel[j])
    ensures DownloadName(AsPosix(Path(false, parent + rel)), Join(parent)) == Join(rel)
  {
    if parent == [] {
      assert parent + rel == rel;
      StripRoot(rel);
    } else if rel == [] {
      assert parent + rel == parent;
      StripAll(parent);
    } else {
      StripBelow(parent, rel);
    }
  }

  lemma {:induction false} StripRoot(rel: seq<string>)
    requires forall j :: 0 <= j < |rel| ==> IsSegment(rel[j])
    ensures DownloadName(AsPosix(Path(false, rel)), "") == Join(rel)
  {
    var p := Path(false, rel);
    var s := AsPosix(p);
    StripPrefix("", s);
    assert "" + s == s;
    ParseAsPosix(p);
    assert FromString(s).path == p;
  }

  lemma {:induction false} StripAll(parent: seq<string>)
    requires parent != [] && forall j :: 0 <= j < |parent| ==> IsSegment(parent[j])
    ensures DownloadName(AsPosix(Path(false, parent)), Join(parent)) == ""
  {
    var s := AsPosix(Path(false, parent));
    assert s == Join(parent);
    StripPrefix(s, "");
    assert s + "" == s;
    EmptyParses();
    assert FromString("").path.segments == [];
  }

  lemma {:induction false} StripBelow(parent: seq<string>, rel: seq<string>)
    requires parent != [] && forall j :: 0 <= j < |parent| ==> IsSegment(parent[j])
    requires rel != [] && forall j :: 0 <= j < |rel| ==> IsSegment(rel[j])
    ensures DownloadName(AsPosix(Path(false, parent + rel)), Join(parent)) == Join(rel)
  {
    var s := AsPosix(Path(false, parent + rel));
    JoinAppend(parent, rel);
    assert s == Join(parent) + ("/" + Join(rel));
    var tail := Path(true, rel);
    assert AsPosix(tail) == "/" + Join(rel);
    StripPrefix(Join(parent), "/" + Join(rel));
    ParseAsPosix(tail);
    assert FromString("/" + Join(rel)).path == tail;
  }

  /** A blob `<parent>/<rel>` below the source's parent, downloaded into a
      directory, is written to `<dst>/<rel>`; and the directory created for
      it is exactly that file's parent. For the source object itself `rel`
      is its final segment, for a blob below it that segment followed by the
      rest of the name. */
  lemma {:induction false} DownloadedFile(src: UniformPath, dst: UniformPath, rel: seq<string>)
    requires src.prefix.path.Valid() && dst.prefix.path.Valid()
    requires |rel| >= 1 && forall j :: 0 <= j < |rel| ==> IsSegment(rel[j])
    ensures var blob := Join(Parent(src.prefix.path).segments + rel);
            && DownloadFilename(blob, ParentKey(src.prefix), dst, false)
               == AsPosix(Path(dst.prefix.path.absolute, dst.prefix.path.segments + rel))
            && ParentDir(blob, ParentKey(src.prefix), dst)
               == AsPosix(Parent(Path(dst.prefix.path.absolute, dst.prefix.path.segments + rel)))
  {
    var parent := Parent(src.prefix.path).segments;
    FileBelowParent(dst, parent, rel);
    DirBelowParent(dst, parent, rel);
  }

  lemma {:induction false} FileBelowParent(dst: UniformPath, parent: seq<string>, rel: seq<string>)
    requires dst.prefix.path.Valid()
    requires forall j :: 0 <= j < |parent| ==> IsSegment(parent[j])
    requires |rel| >= 1 && forall j :: 0 <= j < |rel| ==> IsSegment(rel[j])
    ensures DownloadFilename(Join(parent + rel), Join(parent), dst, false)
            == AsPosix(Path(dst.prefix.path.absolute, dst.prefix.path.segments + rel))
  {
    assert AsPosix(Path(false, parent + rel)) == Join(parent + rel);
    StripParent(parent, rel);
    JoinSegments(dst.prefix.path, rel);
  }

  lemma {:induction false} DirBelowParent(dst: UniformPath, parent: seq<string>, rel: seq<string>)
    requires dst.prefix.path.Valid()
    requires forall j :: 0 <= j < |parent| ==> IsSegment(parent[j])
    requires |rel| >= 1 && forall j :: 0 <= j < |rel| ==> IsSegment(rel[j])
    ensures ParentDir(Join(parent + rel), Join(parent), dst)
            == AsPosix(Parent(Path(dst.prefix.path.absolute, dst.prefix.path.segments + rel)))
  {
    var whole := Path(false, parent + rel);
    assert AsPosix(whole) == Join(parent + rel);
    ParseAsPosix(whole);
    var rel' := rel[..|rel| - 1];
    assert (parent + rel)[..|parent + rel| - 1] == parent + rel';
    assert Parent(Parse(Join(parent + rel))) == Path(false, parent + rel');
    StripParent(parent, rel');
    JoinSegments(dst.prefix.path, rel');
    var d := dst.prefix.path.segments;
    assert (d + rel)[..|d + rel| - 1] == d + rel';
  }

  /** Into a file destination every listed blob is written to that file. */
  lemma IntoFileDestination(listed: seq<string>, parentKey: string, dst: UniformPath)
    ensures forall f :: f in Named(listed, parentKey, dst, true) ==> f.filename == AsPosix(dst.prefix.path)
  {
  }

  /** Into a destination that is a file, or a missing one that the
      placeholder turns into a file, a blob two or more levels below the
      source's parent needs a directory below that file, so `_download`
      raises `NotADirectoryError` (nothing else on disk lies below the
      destination). */
  lemma {:induction false} DeepBlobBelowFile(keys: Keys, src: UniformPath, dst: UniformPath, recursive: bool,
                                             files: set<string>, dirs: set<string>, rel: seq<string>)
    requires src.prefix.path.Valid() && dst.prefix.path.Valid() && dst.prefix.path.segments != []
    requires AsPosix(dst.prefix.path) !in dirs
    requires forall f :: f in files ==> !StartsWith(f, AsPosix(dst.prefix.path) + "/")
    requires |rel| >= 2 && forall j :: 0 <= j < |rel| ==> IsSegment(rel[j])
    requires Join(Parent(src.prefix.path).segments + rel) in DownloadListing(keys, src, recursive)
    ensures BlockedDirs(keys, src, dst, recursive, files, dirs) != {}
  {
    var blob := Join(Parent(src.prefix.path).segments + rel);
    var dir := ParentDir(blob, ParentKey(src.prefix), dst);
    DeepDir(src, dst, rel);
    BelowItself(dir, AsPosix(dst.prefix.path), files, FilesAfter(dst, files, dirs));
    BlockedHas(keys, src, dst, recursive, files, dirs, blob);
  }

  /** The directory of a listed blob is blocked when it lies below a file
      and is not one itself. */
  lemma BlockedHas(keys: Keys, src: UniformPath, dst: UniformPath, recursive: bool,
                   files: set<string>, dirs: set<string>, blob: string)
    requires src.prefix.path.Valid()
    requires blob in DownloadListing(keys, src, recursive)
    requires var dir := ParentDir(blob, ParentKey(src.prefix), dst);
             dir !in FilesAfter(dst, files, dirs) && BelowFile(dir, FilesAfter(dst, files, dirs))
    ensures ParentDir(blob, ParentKey(src.prefix), dst) in BlockedDirs(keys, src, dst, recursive, files, dirs)
  {
  }

  /** The directory created for a blob two or more levels below the
      source's parent lies below the destination. */
  lemma {:induction false} DeepDir(src: UniformPath, dst: UniformPath, rel: seq<string>)
    requires src.prefix.path.Valid() && dst.prefix.path.Valid() && dst.prefix.path.segments != []
    requires |rel| >= 2 && forall j :: 0 <= j < |rel| ==> IsSegment(rel[j])
    ensures StartsWith(ParentDir(Join(Parent(src.prefix.path).segments + rel), ParentKey(src.prefix), dst),
                       AsPosix(dst.prefix.path) + "/")
  {
    var dp := dst.prefix.path;
    DirBelowParent(dst, Parent(src.prefix.path).segments, rel);
    ParentBelowPath(dp, rel);
  }

  /** A path below `into`, which is a file afterwards while no file lay
      below it before, cannot be created. */
  lemma BelowItself(dir: string, into: string, files: set<string>, isFile: set<string>)
    requires StartsWith(dir, into + "/")
    requires into in isFile && isFile <= files + {into}
    requires forall f :: f in files ==> !StartsWith(f, into + "/")
    ensures dir !in isFile && BelowFile(dir, isFile)
  {
  }

  /** The parent of a path two or more segments below `p` lies below `p`. */
  lemma {:induction false} ParentBelowPath(p: Path, rel: seq<string>)
    requires p.segments != [] && |rel| >= 2
    ensures StartsWith(AsPosix(Parent(Path(p.absolute, p.segments + rel))), AsPosix(p) + "/")
  {
    var rel' := rel[..|rel| - 1];
    assert (p.segments + rel)[..|p.segments + rel| - 1] == p.segments + rel';
    var q := Path(p.absolute, p.segments + rel');
    assert Parent(Path(p.absolute, p.segments + rel)) == q;
    RenderBelow(p, rel');
  }

  /** Rendering `p` with segments appended starts with `p`'s rendering and a '/'. */
  lemma {:induction false} RenderBelow(p: Path, more: seq<string>)
    requires p.segments != [] && more != []
    ensures StartsWith(AsPosix(Path(p.absolute, p.segments + more)), AsPosix(p) + "/")
  {
    JoinAppend(p.segments, more);
    var lead := if p.absolute then "/" else "";
    assert AsPosix(p) == lead + Join(p.segments);
    assert AsPosix(Path(p.absolute, p.segments + more)) == lead + (Join(p.segments) + "/" + Join(more));
    Reassociate(lead, Join(p.segments), Join(more));
    PrefixOfConcat(AsPosix(p) + "/", Join(more));
  }

  lemma Reassociate(lead: string, x: string, y: string)
    ensures lead + (x + "/" + y) == (lead + x + "/") + y
  {
  }

  lemma PrefixOfConcat(a: string, b: string)
    ensures StartsWith(a + b, a)
  {
    assert (a + b)[..|a|] == a;
  }

  /** A missing destination whose parent is a file cannot be created: the
      placeholder write raises `NotADirectoryError` before anything is
      listed (`cp gs://b/f F/x` with `F` a file). */
  lemma {:induction false} PlaceholderBelowFile(dst: UniformPath, files: set<string>, dirs: set<string>)
    requires dst.prefix.path.Valid() && |dst.prefix.path.segments| >= 2
    requires AsPosix(Parent(dst.prefix.path)) in files
    requires AsPosix(dst.prefix.path) !in files && AsPosix(dst.prefix.path) !in dirs
    ensures PlaceholderError(dst, files, dirs) == Some(NotADirectory(AsPosix(dst.prefix.path)))
  {
    var p := dst.prefix.path;
    var parent := Parent(p);
    assert p == Path(parent.absolute, parent.segments + [p.segments[|p.segments| - 1]]);
    RenderBelow(parent, [p.segments[|p.segments| - 1]]);
    assert StartsWith(AsPosix(p), AsPosix(parent) + "/");
  }

  /** A missing destination below a missing directory cannot be created
      either: `cp gs://b/f nodir/x` raises `FileNotFoundError`. */
  lemma MissingParent(dst: UniformPath)
    requires dst.prefix.path == Path(false, ["nodir", "x"])
    ensures PlaceholderError(dst, {}, {}) == Some(FileNotFound("nodir/x"))
  {
    assert AsPosix(dst.prefix.path) == "nodir/x";
    assert !BelowFile("nodir/x", {});
    assert AsPosix(Parent(dst.prefix.path)) == "nodir";
  }
}
