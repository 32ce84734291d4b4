/** Uploading (`_upload`): which local files are sent, and under which key
    each one lands. The directory walk is given as the relative paths of the
    files it finds; reading and sending the files is not modelled. */
module Upload {

  import opened Errors
  import opened Strings
  import opened Paths
  import opened Urls
  import opened CopyRemote

  /** `os.path.join(root, file)` for a file `rel` below the walk's top. */
  function WalkPath(top: string, rel: seq<string>): string {
    if EndsWithSlash(top) then top + Join(rel) else top + "/" + Join(rel)
  }

  /** What the walk of `src` yields: every file by its path relative to it. */
  predicate IsWalk(walk: seq<seq<string>>) {
    forall i :: 0 <= i < |walk| ==> |walk[i]| >= 1 && forall j :: 0 <= j < |walk[i]| ==> IsSegment(walk[i][j])
  }

  /** The top of the walk: the source rendered as a local path. */
  function WalkTop(src: UniformPath): string
    requires src.prefix.path.Valid()
  {
    ConvertToPosix(src.prefix, false, false, src.isCloudUrl)
  }

  /** The name an uploaded file is given relative to the source directory:
      the walked path with the top cut off once, rendered without a leading
      '/' (see the findings for the replacement of every occurrence). */
  function UploadRelative(walked: string, top: string, isCloud: bool): string {
    var stripped := ReplaceFirst(walked, top, "");
    ConvertToPosix(FromString(stripped), false, true, isCloud)
  }

  /** The walked path of a file, relative to the walk's top, is the file's
      relative path. */
  lemma {:induction false} UploadRelativeOfWalk(src: Path, rel: seq<string>, isCloud: bool)
    requires src.Valid()
    requires |rel| >= 1 && forall j :: 0 <= j < |rel| ==> IsSegment(rel[j])
    ensures UploadRelative(WalkPath(AsPosix(src), rel), AsPosix(src), isCloud) == Join(rel)
  {
    var top := AsPosix(src);
    var abs := !EndsWithSlash(top);
    var p := Path(abs, rel);
    ParseAsPosix(p);
    var stripped := AsPosix(p);
    assert stripped == if abs then "/" + Join(rel) else Join(rel);
    assert WalkPath(top, rel) == top + stripped;
    StripPrefix(top, stripped);
    assert FromString(stripped).path == p;
  }

  /** `upload_files` and the directory they are read from: a file source
      is sent by its name from its parent directory (the source path is
      moved to its parent in place); a directory source, when recursive, by
      the relative path of every walked file. */
  datatype Sources = Sources(files: seq<string>, dir: Path)

  function UploadSources(src: UniformPath, srcIsFile: bool, recursive: bool, walk: seq<seq<string>>): (r: Result<Sources>)
    requires src.prefix.path.Valid()
    ensures r.Err? <==> !srcIsFile && !recursive
    ensures r.Err? ==> r.error == NeedsRecursive
    ensures srcIsFile ==> r == Ok(Sources([Name(src.prefix.path)], Parent(src.prefix.path)))
    ensures !srcIsFile && recursive ==> r.Ok? && r.value.dir == src.prefix.path && |r.value.files| == |walk|
  {
    if srcIsFile then Ok(Sources([Name(src.prefix.path)], Parent(src.prefix.path)))
    else if recursive then Ok(Sources(RelativeNames(walk, WalkTop(src), src.isCloudUrl), src.prefix.path))
    else Err(NeedsRecursive)
  }

  /** The relative name of every walked file, in walk order. */
  function RelativeNames(walk: seq<seq<string>>, top: string, isCloud: bool): (names: seq<string>)
    ensures |names| == |walk|
    ensures forall i :: 0 <= i < |walk| ==> names[i] == UploadRelative(WalkPath(top, walk[i]), top, isCloud)
  {
    Mapped(walk, rel => UploadRelative(WalkPath(top, rel), top, isCloud))
  }

  /** The blob path of one uploaded file: exactly the destination for a
      file source and a destination without trailing '/'; the destination,
      the source directory's name and the file for a directory source and a
      destination with trailing '/'; the destination and the file otherwise. */
  function UploadBlobPath(file: string, src: UniformPath, dst: UniformPath, srcIsFile: bool): (r: Path)
    requires src.prefix.path.Valid() && dst.prefix.path.Valid()
    ensures r.Valid() && r.absolute == dst.prefix.path.absolute
    ensures srcIsFile && !dst.prefix.hadTrailingBackslash ==> r == dst.prefix.path
    ensures !srcIsFile && dst.prefix.hadTrailingBackslash ==>
              r.segments == dst.prefix.path.segments + NameSegments(src.prefix.path) + Parse(file).segments
    ensures srcIsFile == dst.prefix.hadTrailingBackslash ==>
              r.segments == dst.prefix.path.segments + Parse(file).segments
  {
    var g := FromString(file);
    var f := ConvertToPosix(g, false, true, true);
    RelativeRendering(g);
    var rel := Parse(file).segments;
    assert !StartsWith(f, "/") && Parse(f).segments == rel;
    if srcIsFile && !dst.prefix.hadTrailingBackslash then
      dst.prefix.path
    else if dst.prefix.hadTrailingBackslash && !srcIsFile then
      var parent := ConvertToPosix(NameOfParentDir(src.prefix), false, true, true);
      NameJoins(dst.prefix.path, src.prefix.path);
      var d := JoinStr(dst.prefix.path, parent);
      assert d == Path(dst.prefix.path.absolute, dst.prefix.path.segments + NameSegments(src.prefix.path));
      JoinRelative(d, f, rel);
      JoinStr(d, f)
    else
      JoinRelative(dst.prefix.path, f, rel);
      JoinStr(dst.prefix.path, f)
  }

  /** One upload: the local file read and the key written. */
  datatype Transfer = Transfer(localFile: string, target: string)

  /** The key and the local file of one entry of `upload_files`. */
  function UploadOf(file: string, dir: Path, src: UniformPath, dst: UniformPath, srcIsFile: bool): (t: Transfer)
    requires dir.Valid() && src.prefix.path.Valid() && dst.prefix.path.Valid()
  {
    var f := ConvertToPosix(FromString(file), false, true, true);
    Transfer(AsPosix(JoinStr(dir, f)), CloudKey(UploadBlobPath(file, src, dst, srcIsFile)))
  }

  /** The upload of every entry of `upload_files`, in order. */
  function Uploads(files: seq<string>, dir: Path, src: UniformPath, dst: UniformPath, srcIsFile: bool): (ts: seq<Transfer>)
    requires dir.Valid() && src.prefix.path.Valid() && dst.prefix.path.Valid()
    ensures |ts| == |files|
    ensures forall k :: 0 <= k < |files| ==> ts[k] == UploadOf(files[k], dir, src, dst, srcIsFile)
  {
    Mapped(files, f => UploadOf(f, dir, src, dst, srcIsFile))
  }

  /** The uploads out of `ts` that are submitted: all of them, or under
      no-clobber those whose key did not exist before the call. */
  function Admitted(ts: seq<Transfer>, dstKeys: set<string>, noClobber: bool): (kept: seq<Transfer>)
    ensures |kept| <= |ts|
    ensures forall t :: t in kept <==> t in ts && !(noClobber && t.target in dstKeys)
  {
    Filtered(ts, (t: Transfer) => noClobber && t.target in dstKeys)
  }

  lemma AdmittedStep(ts: seq<Transfer>, t: Transfer, dstKeys: set<string>, noClobber: bool)
    ensures Admitted(ts + [t], dstKeys, noClobber)
            == Admitted(ts, dstKeys, noClobber) + (if noClobber && t.target in dstKeys then [] else [t])
  {
    FilteredStep(ts, t, (t: Transfer) => noClobber && t.target in dstKeys);
  }

  /** Without no-clobber every upload is submitted, in order. */
  lemma AdmittedAll(ts: seq<Transfer>, dstKeys: set<string>)
    ensures Admitted(ts, dstKeys, false) == ts
  {
    FilteredNone(ts, (t: Transfer) => false && t.target in dstKeys);
  }

  /** The uploads `_upload` submits, in `upload_files` order, skipping under
      no-clobber those whose key already exists. */
  function UploadPlanned(files: seq<string>, dir: Path, src: UniformPath, dst: UniformPath, srcIsFile: bool,
                         dstKeys: set<string>, noClobber: bool): (plan: seq<Transfer>)
    requires dir.Valid() && src.prefix.path.Valid() && dst.prefix.path.Valid()
    ensures |plan| <= |files|
    ensures forall t :: t in plan ==> exists f :: f in files && t == UploadOf(f, dir, src, dst, srcIsFile)
    ensures noClobber ==> forall t :: t in plan ==> t.target !in dstKeys
  {
    var ts := Uploads(files, dir, src, dst, srcIsFile);
    var plan := Admitted(ts, dstKeys, noClobber);
    UploadsSound(files, dir, src, dst, srcIsFile, plan);
    plan
  }

  /** Whatever is drawn from `Uploads` is the upload of one of the files. */
  lemma UploadsSound(files: seq<string>, dir: Path, src: UniformPath, dst: UniformPath, srcIsFile: bool,
                     plan: seq<Transfer>)
    requires dir.Valid() && src.prefix.path.Valid() && dst.prefix.path.Valid()
    requires forall t :: t in plan ==> t in Uploads(files, dir, src, dst, srcIsFile)
    ensures forall t :: t in plan ==> exists f :: f in files && t == UploadOf(f, dir, src, dst, srcIsFile)
  {
    var ts := Uploads(files, dir, src, dst, srcIsFile);
    forall t | t in plan ensures exists f :: f in files && t == UploadOf(f, dir, src, dst, srcIsFile) {
      var k :| 0 <= k < |ts| && ts[k] == t;
      assert files[k] in files;
    }
  }

  lemma UploadsStep(files: seq<string>, i: nat, dir: Path, src: UniformPath, dst: UniformPath, srcIsFile: bool,
                    t: Transfer)
    requires dir.Valid() && src.prefix.path.Valid() && dst.prefix.path.Valid()
    requires i < |files| && t == UploadOf(files[i], dir, src, dst, srcIsFile)
    ensures Uploads(files[..i + 1], dir, src, dst, srcIsFile) == Uploads(files[..i], dir, src, dst, srcIsFile) + [t]
  {
    MappedStep(files, i, f => UploadOf(f, dir, src, dst, srcIsFile));
  }

  lemma SubmitStep(files: seq<string>, i: nat, dir: Path, src: UniformPath, dst: UniformPath, srcIsFile: bool,
                   dstKeys: set<string>, noClobber: bool, t: Transfer)
    requires dir.Valid() && src.prefix.path.Valid() && dst.prefix.path.Valid()
    requires i < |files| && t == UploadOf(files[i], dir, src, dst, srcIsFile)
    ensures Admitted(Uploads(files[..i + 1], dir, src, dst, srcIsFile), dstKeys, noClobber)
            == Admitted(Uploads(files[..i], dir, src, dst, srcIsFile), dstKeys, noClobber)
               + (if noClobber && t.target in dstKeys then [] else [t])
  {
    UploadsStep(files, i, dir, src, dst, srcIsFile, t);
    AdmittedStep(Uploads(files[..i], dir, src, dst, srcIsFile), t, dstKeys, noClobber);
  }

  /** The walk loop of `_upload`: the relative name of every walked file. */
  method CollectWalked(walk: seq<seq<string>>, top: string, isCloud: bool) returns (files: seq<string>)
    ensures files == RelativeNames(walk, top, isCloud)
  {
    files := [];
    for i := 0 to |walk|
      invariant files == RelativeNames(walk[..i], top, isCloud)
    {
      MappedStep(walk, i, rel => UploadRelative(WalkPath(top, rel), top, isCloud));
      files := files + [UploadRelative(WalkPath(top, walk[i]), top, isCloud)];
    }
    assert walk[..|walk|] == walk;
  }

  /** `_upload`: collect `upload_files`, then name and submit each upload. */
  method PlanUpload(src: UniformPath, dst: UniformPath, srcIsFile: bool, recursive: bool,
                    walk: seq<seq<string>>, dstKeys: set<string>, noClobber: bool)
    returns (r: Result<seq<Transfer>>)
    requires src.prefix.path.Valid() && dst.prefix.path.Valid()
    ensures match UploadSources(src, srcIsFile, recursive, walk)
            case Err(e) => r == Err(e)
            case Ok(s) => r == Ok(UploadPlanned(s.files, s.dir, src, dst, srcIsFile, dstKeys, noClobber))
  {
    var uploadFiles: seq<string>;
    var dir := src.prefix.path;
    if srcIsFile {
      uploadFiles := [Name(dir)];
      dir := Parent(dir);
    } else if recursive {
      uploadFiles := CollectWalked(walk, WalkTop(src), src.isCloudUrl);
    } else {
      return Err(NeedsRecursive);
    }
    assert UploadSources(src, srcIsFile, recursive, walk) == Ok(Sources(uploadFiles, dir));
    var plan := SubmitUploads(uploadFiles, dir, src, dst, srcIsFile, dstKeys, noClobber);
    return Ok(plan);
  }

  /** The submit loop of `_upload`. */
  method SubmitUploads(files: seq<string>, dir: Path, src: UniformPath, dst: UniformPath, srcIsFile: bool,
                       dstKeys: set<string>, noClobber: bool) returns (plan: seq<Transfer>)
    requires dir.Valid() && src.prefix.path.Valid() && dst.prefix.path.Valid()
    ensures plan == UploadPlanned(files, dir, src, dst, srcIsFile, dstKeys, noClobber)
  {
    plan := [];
    for i := 0 to |files|
      invariant plan == Admitted(Uploads(files[..i], dir, src, dst, srcIsFile), dstKeys, noClobber)
    {
      var t := UploadOf(files[i], dir, src, dst, srcIsFile);
      SubmitStep(files, i, dir, src, dst, srcIsFile, dstKeys, noClobber, t);
      plan := plan + (if noClobber && t.target in dstKeys then [] else [t]);
    }
    assert files[..|files|] == files;
  }

  /** A file the walk found between the source and the destination: its
      relative name comes back out of the rendering used for joining. */
  lemma RelativeNameRenders(rel: seq<string>)
    requires |rel| >= 1 && forall j :: 0 <= j < |rel| ==> IsSegment(rel[j])
    ensures FromString(Join(rel)).path == Path(false, rel)
    ensures ConvertToPosix(FromString(Join(rel)), false, true, true) == Join(rel)
  {
    ParseAsPosix(Path(false, rel));
  }

  /** A single local file sent to a destination without trailing '/' goes
      to exactly the destination key, and is read from where it lies. */
  lemma {:induction false} UploadFileToExactKey(src: UniformPath, dst: UniformPath)
    requires src.prefix.path.Valid() && dst.prefix.path.Valid()
    requires src.prefix.path.segments != [] && !dst.prefix.hadTrailingBackslash
    ensures var t := UploadOf(Name(src.prefix.path), Parent(src.prefix.path), src, dst, true);
            t.target == CloudKey(dst.prefix.path) && t.localFile == AsPosix(src.prefix.path)
  {
    FileReadFromItsPlace(src.prefix.path);
  }

  /** A single local file sent to a destination ending with '/' goes to
      `<dst>/<file name>`. */
  lemma {:induction false} UploadFileIntoDirectory(src: UniformPath, dst: UniformPath)
    requires src.prefix.path.Valid() && dst.prefix.path.Valid()
    requires src.prefix.path.segments != [] && dst.prefix.hadTrailingBackslash
    ensures var t := UploadOf(Name(src.prefix.path), Parent(src.prefix.path), src, dst, true);
            t.target == Join(dst.prefix.path.segments + [Name(src.prefix.path)])
            && t.localFile == AsPosix(src.prefix.path)
  {
    FileReadFromItsPlace(src.prefix.path);
    RelativeNameRenders([Name(src.prefix.path)]);
    assert Join([Name(src.prefix.path)]) == Name(src.prefix.path);
  }

  lemma FileReadFromItsPlace(p: Path)
    requires p.Valid() && p.segments != []
    ensures ConvertToPosix(FromString(Name(p)), false, true, true) == Name(p)
    ensures JoinStr(Parent(p), Name(p)) == p
  {
    RelativeNameRenders([Name(p)]);
    assert Join([Name(p)]) == Name(p);
    JoinSegments(Parent(p), [Name(p)]);
  }

  /** A walked file of a directory sent to a destination ending with '/'
      goes to `<dst>/<directory name>/<relative path>`; to a destination
      without it, to `<dst>/<relative path>`. Either way it is read from
      `<src>/<relative path>`. (With the corrected first-occurrence cut.) */
  lemma {:induction false} UploadDirectoryFile(src: UniformPath, dst: UniformPath, rel: seq<string>)
    requires src.prefix.path.Valid() && dst.prefix.path.Valid()
    requires |rel| >= 1 && forall j :: 0 <= j < |rel| ==> IsSegment(rel[j])
    ensures var t := UploadOf(Join(rel), src.prefix.path, src, dst, false);
            && t.target == Join(dst.prefix.path.segments
                                + (if dst.prefix.hadTrailingBackslash then NameSegments(src.prefix.path) else [])
                                + rel)
            && t.localFile == AsPosix(Path(src.prefix.path.absolute, src.prefix.path.segments + rel))
  {
    RelativeNameRenders(rel);
    JoinSegments(src.prefix.path, rel);
    var b := UploadBlobPath(Join(rel), src, dst, false);
    assert b.segments == dst.prefix.path.segments
                         + (if dst.prefix.hadTrailingBackslash then NameSegments(src.prefix.path) else [])
                         + rel;
    assert b.segments != [];
  }

  /** For a local directory, the walk loop names every walked file by its
      path relative to the directory, wherever the directory lies (with the
      corrected first-occurrence cut of the walk's top). */
  lemma {:induction false} WalkedFileNames(src: UniformPath, dst: UniformPath, walk: seq<seq<string>>, k: nat)
    requires src.prefix.path.Valid() && dst.prefix.path.Valid()
    requires !src.isCloudUrl && IsWalk(walk) && k < |walk|
    ensures var top := WalkTop(src);
            RelativeNames(walk, top, false)[k] == Join(walk[k])
  {
    var top := WalkTop(src);
    assert top == AsPosix(src.prefix.path);
    UploadRelativeOfWalk(src.prefix.path, walk[k], false);
  }
}
