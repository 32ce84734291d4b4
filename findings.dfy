/** Rules of the source that, as written, do something other than what they
    are evidently meant to do. Each is modelled here as written, with an
    input that shows the difference; the rest of the model uses the
    corrected rule, whose intended property is proved where it is defined. */
module Findings {

  import opened Errors
  import opened Strings
  import opened Paths
  import opened Urls
  import opened Listing
  import opened CopyRemote
  import opened Upload
  import opened Download

  // ---- _download: the file name is cut with `str.replace` ----

  /** `_download`'s file name as written: every occurrence of the parent
      key is cut out of the blob name, not only the leading one. */
  function DownloadNameAsWritten(name: string, parentKey: string): (r: string)
    ensures parentKey == "" ==> r == DownloadName(name, parentKey)
  {
    ReplaceAllEmpty(name);
    ConvertToPosix(FromString(ReplaceAll(name, parentKey, "")), false, true, true)
  }

  /** Downloading `gs://b/a/data` (parent key `a`) names the file `dt`
      instead of `data`. */
  lemma DownloadNameLosesLetters()
    ensures DownloadNameAsWritten("a/data", "a") == "dt"
    ensures DownloadName("a/data", "a") == "data"
  {
    LettersAsWritten();
    LettersCorrected();
  }

  lemma LettersAsWritten()
    ensures DownloadNameAsWritten("a/data", "a") == "dt"
  {
    assert IsSegment("dt");
    assert ReplaceAll("a/data", "a", "") == "/dt";
    RenderedOnce(true, "dt");
  }

  lemma LettersCorrected()
    ensures DownloadName("a/data", "a") == "data"
  {
    assert IsSegment("data");
    assert ReplaceFirst("a/data", "a", "") == "/data";
    RenderedOnce(true, "data");
  }

  // ---- _upload: the walked path is cut with `str.replace` ----

  /** `_upload`'s relative name as written: every occurrence of the walk's
      top is cut out of the walked path. */
  function UploadRelativeAsWritten(walked: string, top: string, isCloud: bool): (r: string)
    ensures top == "" ==> r == UploadRelative(walked, top, isCloud)
  {
    ReplaceAllEmpty(walked);
    ConvertToPosix(FromString(ReplaceAll(walked, top, "")), false, true, isCloud)
  }

  /** Uploading the working directory `.` names the walked file `a.txt`
      `atxt`: every '.' of the path is cut out. */
  lemma UploadNameLosesDots()
    ensures WalkPath(".", ["a.txt"]) == "./a.txt"
    ensures UploadRelativeAsWritten("./a.txt", ".", false) == "atxt"
    ensures UploadRelative("./a.txt", ".", false) == "a.txt"
  {
    DotWalk();
    DotsAsWritten();
    DotsCorrected();
  }

  lemma DotWalk()
    ensures WalkPath(".", ["a.txt"]) == "./a.txt"
  {
    assert Join(["a.txt"]) == "a.txt";
  }

  lemma DotsAsWritten()
    ensures UploadRelativeAsWritten("./a.txt", ".", false) == "atxt"
  {
    assert IsSegment("atxt");
    EveryDotCut();
    RenderedOnce(true, "atxt");
  }

  lemma DotsCorrected()
    ensures UploadRelative("./a.txt", ".", false) == "a.txt"
  {
    assert IsSegment("a.txt");
    FirstDotCut();
    RenderedOnce(true, "a.txt");
  }

  lemma FirstDotCut()
    ensures ReplaceFirst("./a.txt", ".", "") == "/a.txt"
  {
    ReplaceFirstPrefix("./a.txt", ".", "");
  }

  lemma EveryDotCut()
    ensures ReplaceAll("./a.txt", ".", "") == "/atxt"
  {
    var a, b, c, d, e, f := "t", "xt", "txt", ".txt", "a.txt", "/a.txt";
    assert b[1..] == a && c[1..] == b && d[1..] == c && e[1..] == d && f[1..] == e;
    assert ReplaceAll(a[1..], ".", "") == [];
    CharStep(a); CharStep(b); CharStep(c); CharStep(d); CharStep(e); CharStep(f);
  }

  /** One step of `ReplaceAll` with the pattern "." and nothing in its place. */
  lemma CharStep(s: string)
    requires |s| > 0
    ensures ReplaceAll(s, ".", "") == (if s[0] == '.' then [] else [s[0]]) + ReplaceAll(s[1..], ".", "")
  {
  }

  // ---- _cp: a recursive listing without the trailing '/' ----

  /** The blobs `_cp` copies as written: everything listed under the bare
      key, so a recursive copy of `a` also takes `ab/...`. */
  function CpListingAsWritten(keys: Keys, src: UniformPath, recursive: bool): (listed: seq<string>)
    requires src.prefix.path.Valid()
    ensures !recursive ==> listed == CpListing(keys, src, recursive)
    ensures recursive ==> forall b :: b in listed <==> b in keys && StartsWith(b, SourceKey(src.prefix))
  {
    Objects(keys, SourceKey(src.prefix), Delimiter(recursive))
  }

  /** A recursive copy of `gs://b/a` to `gs://b/out` also copies the
      sibling `ab/y`, to `out/y`, where `a/y` would go. */
  lemma CpTakesSibling()
    ensures var src := UniformPath(true, "b", GcsPath(false, Path(true, ["a"])));
            "ab/y" in CpListingAsWritten(["a/x", "ab/y"], src, true)
    ensures var src := UniformPath(true, "b", GcsPath(false, Path(true, ["a"])));
            "ab/y" !in CpListing(["a/x", "ab/y"], src, true)
    ensures var src := UniformPath(true, "b", GcsPath(false, Path(true, ["a"])));
            var dst := UniformPath(true, "b", GcsPath(false, Path(true, ["out"])));
            CopyTarget("ab/y", src, dst) == CopyTarget("a/y", src, dst) == "out/y"
  {
    SiblingListed();
    SiblingTarget();
  }

  lemma SiblingListed()
    ensures var src := UniformPath(true, "b", GcsPath(false, Path(true, ["a"])));
            && "ab/y" in CpListingAsWritten(["a/x", "ab/y"], src, true)
            && "ab/y" !in CpListing(["a/x", "ab/y"], src, true)
  {
    var src := UniformPath(true, "b", GcsPath(false, Path(true, ["a"])));
    assert SourceKey(src.prefix) == "a";
    assert "ab/y"[..2][1] == 'b';
    assert !InScope("ab/y", "a");
  }

  lemma SiblingTarget()
    ensures var src := UniformPath(true, "b", GcsPath(false, Path(true, ["a"])));
            var dst := UniformPath(true, "b", GcsPath(false, Path(true, ["out"])));
            CopyTarget("ab/y", src, dst) == CopyTarget("a/y", src, dst) == "out/y"
  {
    assert "ab/y"[2..] == "/y" && "a/y"[2..] == "y";
    TargetOf("ab/y", "/y");
    TargetOf("a/y", "y");
  }

  /** A blob whose name past the first two characters is `suffix` (`y`
      with or without a leading '/') is copied from `a` to `out/y`. */
  lemma TargetOf(blob: string, suffix: string)
    requires |blob| >= 2 && blob[2..] == suffix && (suffix == "y" || suffix == "/y")
    ensures var src := UniformPath(true, "b", GcsPath(false, Path(true, ["a"])));
            var dst := UniformPath(true, "b", GcsPath(false, Path(true, ["out"])));
            CopyTarget(blob, src, dst) == "out/y"
  {
    var src := UniformPath(true, "b", GcsPath(false, Path(true, ["a"])));
    var dst := UniformPath(true, "b", GcsPath(false, Path(true, ["out"])));
    assert IsSegment("y");
    OutY();
    SuffixBelowA(blob, suffix);
    RenderedOnce(suffix == "/y", "y");
    var r := CpBlobNameRestructure(blob, src, dst);
    assert r.segments == ["out"] + [] + ["y"];
  }

  lemma OutY()
    ensures Join(["out", "y"]) == "out/y"
  {
  }

  lemma SuffixBelowA(blob: string, suffix: string)
    requires |blob| >= 2 && blob[2..] == suffix
    ensures SourceSuffix(blob, GcsPath(false, Path(true, ["a"]))) == suffix
  {
    assert Join(["a"]) == "a";
    assert ConvertToPosix(GcsPath(false, Path(true, ["a"])), false, false, true) == "/" + "a" + "";
  }

  // ---- _download: the directories are named by `str.replace` ----

  /** `_download`'s directory for a blob as written: every occurrence of
      the parent key in the blob's parent is replaced by the destination. */
  function ParentDirAsWritten(blobName: string, parentKey: string, dst: UniformPath): (r: string)
    requires dst.prefix.path.Valid()
    // a blob directly inside the source's parent gets the destination itself
    ensures parentKey != "" && AsPosix(Parent(Parse(blobName))) == parentKey ==>
              r == ConvertToPosix(dst.prefix, false, false, false)
  {
    var parentStr := AsPosix(Parent(Parse(blobName)));
    var dstStr := ConvertToPosix(dst.prefix, false, false, false);
    assert parentKey != "" && parentStr == parentKey ==> ReplaceAll(parentStr, parentKey, dstStr) == dstStr by {
      if parentKey != "" && parentStr == parentKey {
        ReplaceWhole(parentStr, dstStr);
      }
    }
    ReplaceAll(parentStr, parentKey, dstStr)
  }

  /** Downloading `gs://b/d` (its parent is the bucket root, whose key is
      '') into `out` creates `outdout` instead of `out/d`: the empty key
      matches between every two characters. */
  lemma ParentDirOfTopLevel()
    ensures var dst := UniformPath(false, "", GcsPath(false, Path(false, ["out"])));
            && ParentDirAsWritten("d/x", "", dst) == "outdout"
            && ParentDir("d/x", "", dst) == "out/d"
  {
    TopLevelAsWritten();
    TopLevelCorrected();
  }

  lemma TopLevelAsWritten()
    ensures ParentDirAsWritten("d/x", "", UniformPath(false, "", GcsPath(false, Path(false, ["out"])))) == "outdout"
  {
    TopLevelParent();
    OutRendering();
    EmptyPatternInserts();
  }

  lemma OutRendering()
    ensures ConvertToPosix(GcsPath(false, Path(false, ["out"])), false, false, false) == "out"
  {
    assert Join(["out"]) == "out";
  }

  lemma EmptyPatternInserts()
    ensures ReplaceAll("d", "", "out") == "outdout"
  {
    assert ReplaceAll([], "", "out") == "out";
  }

  lemma TopLevelCorrected()
    ensures ParentDir("d/x", "", UniformPath(false, "", GcsPath(false, Path(false, ["out"])))) == "out/d"
  {
    TopLevelParent();
    TopLevelName();
    OutD();
  }

  lemma TopLevelName()
    ensures DownloadName("d", "") == "d"
  {
    assert IsSegment("d");
    RenderedOnce(false, "d");
    assert ReplaceFirst("d", "", "") == "d";
  }

  lemma OutD()
    ensures AsPosix(JoinStr(Path(false, ["out"]), "d")) == "out/d"
  {
    assert IsSegment("d");
    RenderedOnce(false, "d");
    assert Join(["out", "d"]) == "out/d";
  }

  lemma TopLevelParent()
    ensures AsPosix(Parent(Parse("d/x"))) == "d"
  {
    ParseAsPosix(Path(false, ["d", "x"]));
    assert Join(["d", "x"]) == "d/x";
    assert Parse("d/x") == Path(false, ["d", "x"]);
  }

  // ---- _download: no-clobber after the placeholder is written ----

  /** The downloads `_download` submits with the placeholder timing as
      written: the no-clobber test runs after the placeholder for a missing
      destination is written, so it finds the destination existing. The
      files are named by the corrected rule (`Named`). */
  function FetchesAsWritten(listed: seq<string>, parentKey: string, dst: UniformPath, noClobber: bool,
                            files: set<string>, dirs: set<string>): (kept: seq<Fetch>)
    requires dst.prefix.path.Valid()
    // when the destination exists, the order of the two steps does not matter
    ensures var dstPath := AsPosix(dst.prefix.path);
            dstPath in files || dstPath in dirs ==>
              kept == Unclobbered(Named(listed, parentKey, dst, dstPath in files), files + dirs, noClobber)
  {
    var dstPath := AsPosix(dst.prefix.path);
    var placeholder := dstPath !in files && dstPath !in dirs;
    var filesAfter := files + (if placeholder then {dstPath} else {});
    assert !placeholder ==> filesAfter == files;
    Unclobbered(Named(listed, parentKey, dst, dstPath in filesAfter), filesAfter + dirs, noClobber)
  }

  /** With no-clobber and a missing destination, nothing is downloaded as
      written (the destination keeps the placeholder text); the corrected
      rule, which tests what existed before the call, downloads every
      listed blob. */
  lemma {:induction false} NoClobberIntoMissing(listed: seq<string>, parentKey: string, dst: UniformPath,
                                                files: set<string>, dirs: set<string>)
    requires dst.prefix.path.Valid()
    requires AsPosix(dst.prefix.path) !in files && AsPosix(dst.prefix.path) !in dirs
    ensures FetchesAsWritten(listed, parentKey, dst, true, files, dirs) == []
    ensures var dstPath := AsPosix(dst.prefix.path);
            Unclobbered(Named(listed, parentKey, dst, true), files + dirs, true) == Named(listed, parentKey, dst, true)
  {
    var dstPath := AsPosix(dst.prefix.path);
    var named := Named(listed, parentKey, dst, true);
    forall i | 0 <= i < |named| ensures named[i].filename == dstPath {
      assert named[i] == Fetch(listed[i], DownloadFilename(listed[i], parentKey, dst, true));
    }
    AllExisting(named, dstPath, files + {dstPath} + dirs);
    NoneExisting(named, dstPath, files + dirs);
  }

  /** Downloads that all go to an existing file are all skipped. */
  lemma {:induction false} AllExisting(named: seq<Fetch>, path: string, existing: set<string>)
    requires path in existing
    requires forall i :: 0 <= i < |named| ==> named[i].filename == path
    ensures Unclobbered(named, existing, true) == []
    decreases |named|
  {
    if named != [] {
      AllExisting(named[..|named| - 1], path, existing);
    }
  }

  /** Downloads that all go to a missing file are all kept. */
  lemma {:induction false} NoneExisting(named: seq<Fetch>, path: string, existing: set<string>)
    requires path !in existing
    requires forall i :: 0 <= i < |named| ==> named[i].filename == path
    ensures Unclobbered(named, existing, true) == named
    decreases |named|
  {
    if named != [] {
      NoneExisting(named[..|named| - 1], path, existing);
      assert named[..|named| - 1] + [named[|named| - 1]] == named;
    }
  }

  // ---- helpers ----

  /** `/<name>` and `<name>` read back as one segment and render as the
      name without a leading '/'. */
  lemma RenderedOnce(absolute: bool, name: string)
    requires IsSegment(name)
    ensures var s := (if absolute then "/" else "") + name;
            && Parse(s) == Path(absolute, [name])
            && ConvertToPosix(FromString(s), false, true, true) == name
            && ConvertToPosix(FromString(s), false, true, false) == name
  {
    var p := Path(absolute, [name]);
    ParseAsPosix(p);
    assert AsPosix(p) == (if absolute then "/" else "") + name;
  }

  /** Replacing the whole of a non-empty string gives the replacement. */
  lemma ReplaceWhole(s: string, repl: string)
    requires s != []
    ensures ReplaceAll(s, s, repl) == repl
  {
    assert s[|s|..] == [];
  }

  /** Replacing the empty string by nothing changes nothing, and so does
      replacing it only once. */
  lemma {:induction false} ReplaceAllEmpty(s: string)
    ensures ReplaceAll(s, "", "") == s
    ensures ReplaceFirst(s, "", "") == s
  {
    if s != [] {
      ReplaceAllEmpty(s[1..]);
      assert [s[0]] + s[1..] == s;
    }
  }
}
