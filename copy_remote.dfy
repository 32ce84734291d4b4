/** Cloud-to-cloud copying: `_cp_blob_name_restructure`, which names the
    copy of one blob, and the plan `_cp` builds from a listing of the source
    bucket (the fan-out guard and the no-clobber skip). */
module CopyRemote {

  import opened Errors
  import opened Strings
  import opened Paths
  import opened Urls
  import opened Listing

  /** The blob name with the source prefix cut off: the slice is as long as
      the prefix rendered WITH its leading '/' (blob names have none), so for
      a blob under the prefix it also drops the separator after the key.
      Python's slice past the end gives ''. */
  function SourceSuffix(blobName: string, src: GcsPath): (s: string)
    requires src.path.Valid()
  {
    var n := |ConvertToPosix(src, false, false, true)|;
    if n <= |blobName| then blobName[n..] else ""
  }

  /** The segments `_name_of_parent_dir` contributes: the source's final
      segment, none at the bucket root. */
  function NameSegments(p: Path): (s: seq<string>)
    requires p.Valid()
    ensures forall i :: 0 <= i < |s| ==> IsSegment(s[i])
  {
    if p.segments == [] then [] else [Name(p)]
  }

  /** `_cp_blob_name_restructure(blob_name, src, dst)`. */
  function CpBlobNameRestructure(blobName: string, src: UniformPath, dst: UniformPath): (r: Path)
    requires src.prefix.path.Valid() && dst.prefix.path.Valid()
    ensures r.Valid() && r.absolute == dst.prefix.path.absolute
    // the destination, then the source's name only after a trailing '/',
    // then the part of the blob name below the source prefix
    ensures r.segments == dst.prefix.path.segments
                          + (if dst.prefix.hadTrailingBackslash then NameSegments(src.prefix.path) else [])
                          + Parse(SourceSuffix(blobName, src.prefix)).segments
  {
    var suffix := FromString(SourceSuffix(blobName, src.prefix));
    var suffixStr := ConvertToPosix(suffix, false, true, true);
    RelativeRendering(suffix);
    var rel := Parse(SourceSuffix(blobName, src.prefix)).segments;
    assert !StartsWith(suffixStr, "/") && Parse(suffixStr).segments == rel;
    if dst.prefix.hadTrailingBackslash then
      var parent := NameOfParentDir(src.prefix);
      var parentStr := ConvertToPosix(parent, false, true, true);
      NameJoins(dst.prefix.path, src.prefix.path);
      var d := JoinStr(dst.prefix.path, parentStr);
      assert d == Path(dst.prefix.path.absolute, dst.prefix.path.segments + NameSegments(src.prefix.path));
      JoinRelative(d, suffixStr, rel);
      JoinStr(d, suffixStr)
    else
      JoinRelative(dst.prefix.path, suffixStr, rel);
      assert dst.prefix.path.segments + [] == dst.prefix.path.segments;
      JoinStr(dst.prefix.path, suffixStr)
  }

  /** A rendering without the leading '/' never restarts a `/`-join, and it
      parses back to the same segments. */
  lemma RelativeRendering(g: GcsPath)
    requires g.path.Valid()
    ensures !StartsWith(ConvertToPosix(g, false, true, true), "/")
    ensures Parse(ConvertToPosix(g, false, true, true)).segments == g.path.segments
  {
  }

  /** Joining the rendered final segment appends exactly that segment. */
  lemma NameJoins(d: Path, p: Path)
    requires p.Valid()
    ensures JoinStr(d, Name(p)) == Path(d.absolute, d.segments + NameSegments(p))
  {
    if p.segments == [] {
      JoinEmpty(d);
      assert d.segments + [] == d.segments;
    } else {
      JoinSegments(d, [Name(p)]);
      assert Join([Name(p)]) == Name(p);
    }
  }

  /** The naming does not look at the source's trailing '/': `gs://b/d` and
      `gs://b/d/` name their copies alike. */
  lemma RestructureIgnoresSourceTrailing(blobName: string, src: UniformPath, dst: UniformPath, trailing: bool)
    requires src.prefix.path.Valid() && dst.prefix.path.Valid()
    ensures CpBlobNameRestructure(blobName, src.(prefix := src.prefix.(hadTrailingBackslash := trailing)), dst)
            == CpBlobNameRestructure(blobName, src, dst)
  {
  }

  /** The key of a cloud prefix `/<segs>`. */
  function SourceKey(src: GcsPath): (k: string)
    requires src.path.Valid()
    ensures src.path.segments == [] ==> k == ""
    ensures src.path.segments != [] ==> k == Join(src.path.segments)
  {
    ConvertToPosix(src, false, true, true)
  }

  /** A blob that is exactly the source key is copied to the destination
      itself, or to `<dst>/<name>` when the destination ends with '/'. */
  lemma {:induction false} RestructureExact(src: UniformPath, dst: UniformPath)
    requires src.prefix.path.Valid() && dst.prefix.path.Valid()
    requires src.prefix.path.absolute && src.prefix.path.segments != []
    ensures CpBlobNameRestructure(SourceKey(src.prefix), src, dst).segments
            == dst.prefix.path.segments
               + (if dst.prefix.hadTrailingBackslash then [Name(src.prefix.path)] else [])
  {
    var key := SourceKey(src.prefix);
    assert |ConvertToPosix(src.prefix, false, false, true)| == |key| + 1;
    assert SourceSuffix(key, src.prefix) == "";
    EmptyParses();
  }

  lemma EmptyParses()
    ensures Parse("").segments == []
  {
    assert Split("") == [[]];
  }

  /** A blob `<key>/<rel>` under the source key is copied to `<dst>/<rel>`,
      or to `<dst>/<name>/<rel>` when the destination ends with '/'. */
  lemma {:induction false} RestructureUnder(src: UniformPath, dst: UniformPath, rel: seq<string>)
    requires src.prefix.path.Valid() && dst.prefix.path.Valid()
    requires src.prefix.path.absolute && src.prefix.path.segments != []
    requires |rel| >= 1 && forall i :: 0 <= i < |rel| ==> IsSegment(rel[i])
    ensures CpBlobNameRestructure(SourceKey(src.prefix) + "/" + Join(rel), src, dst).segments
            == dst.prefix.path.segments
               + (if dst.prefix.hadTrailingBackslash then [Name(src.prefix.path)] else [])
               + rel
  {
    var key := SourceKey(src.prefix);
    var blob := key + "/" + Join(rel);
    assert |ConvertToPosix(src.prefix, false, false, true)| == |key| + 1;
    assert SourceSuffix(blob, src.prefix) == Join(rel);
    ParseAsPosix(Path(false, rel));
  }

  /** Copying from the bucket root keeps every blob's whole name below the
      destination (the trailing '/' adds no name: the root has none). */
  lemma {:induction false} RestructureFromRoot(blobName: string, src: UniformPath, dst: UniformPath)
    requires src.prefix.path.Valid() && dst.prefix.path.Valid()
    requires src.prefix.path.segments == []
    ensures CpBlobNameRestructure(blobName, src, dst).segments
            == dst.prefix.path.segments + Parse(blobName).segments
  {
    SuffixFromRoot(blobName, src.prefix);
    assert dst.prefix.path.segments + [] == dst.prefix.path.segments;
  }

  lemma SuffixFromRoot(blobName: string, src: GcsPath)
    requires src.path.Valid() && src.path.segments == []
    ensures SourceSuffix(blobName, src) == blobName
  {
    assert blobName[0..] == blobName;
  }

  /** The key the copy of a blob is written to: the restructured path
      rendered without the leading '/'. */
  function CopyTarget(blobName: string, src: UniformPath, dst: UniformPath): (k: string)
    requires src.prefix.path.Valid() && dst.prefix.path.Valid()
    ensures var r := CpBlobNameRestructure(blobName, src, dst);
            k == if r.segments == [] then "" else Join(r.segments)
  {
    CloudKey(CpBlobNameRestructure(blobName, src, dst))
  }

  /** A copy the plan submits: source blob name and new name. */
  datatype Copy = Copy(source: string, target: string)

  /** A blob that a recursive copy of `key` is meant to take: the key itself
      or a blob below `key/`; everything at the bucket root. */
  predicate InScope(blobName: string, key: string) {
    key == "" || blobName == key || StartsWith(blobName, key + "/")
  }

  /** The listed blobs that are in scope, in listing order. */
  function InScopeOnly(listed: seq<string>, key: string): (r: seq<string>)
    ensures forall b :: b in r <==> b in listed && InScope(b, key)
    ensures Ascending(listed) ==> Ascending(r)
  {
    if listed == [] then []
    else
      var tail := InScopeOnly(listed[1..], key);
      AscendingTailIf(listed);
      if InScope(listed[0], key) then
        AscendingCons(listed[0], tail);
        [listed[0]] + tail
      else
        assert forall b :: b in listed <==> b == listed[0] || b in listed[1..];
        tail
  }

  /** The blobs `_cp` copies: the listing under the source key, with the
      delimiter of the mode; a recursive listing is restricted to the key
      and what lies below `key/` (see the findings). */
  function CpListing(keys: Keys, src: UniformPath, recursive: bool): (listed: seq<string>)
    requires src.prefix.path.Valid()
    ensures forall b :: b in listed ==> b in keys && StartsWith(b, SourceKey(src.prefix))
    ensures recursive ==> forall b :: b in listed <==> b in keys && InScope(b, SourceKey(src.prefix))
    ensures !recursive ==> listed == Objects(keys, SourceKey(src.prefix), "/")
    ensures Ascending(keys) ==> Ascending(listed)
  {
    var key := SourceKey(src.prefix);
    var listed := Objects(keys, key, Delimiter(recursive));
    if recursive then
      forall b | InScope(b, key) ensures StartsWith(b, key) {
        if b != key && key != "" {
          assert b[..|key|] == (key + "/")[..|key|];
        }
      }
      InScopeOnly(listed, key)
    else
      listed
  }

  /** Every listed blob with its new name, in listing order. */
  function Copies(listed: seq<string>, src: UniformPath, dst: UniformPath): (copies: seq<Copy>)
    requires src.prefix.path.Valid() && dst.prefix.path.Valid()
    ensures |copies| == |listed|
    ensures forall i :: 0 <= i < |listed| ==> copies[i] == Copy(listed[i], CopyTarget(listed[i], src, dst))
  {
    Mapped(listed, b => Copy(b, CopyTarget(b, src, dst)))
  }

  /** The copies `_cp` submits for the listed blobs, in listing order: every
      blob, except under no-clobber those whose new name already exists. */
  function CpPlanned(listed: seq<string>, src: UniformPath, dst: UniformPath, dstKeys: set<string>, noClobber: bool): (plan: seq<Copy>)
    requires src.prefix.path.Valid() && dst.prefix.path.Valid()
    ensures |plan| <= |listed|
    ensures forall c :: c in plan ==> c.source in listed && c.target == CopyTarget(c.source, src, dst)
    ensures noClobber ==> forall c :: c in plan ==> c.target !in dstKeys
  {
    var copies := Copies(listed, src, dst);
    var plan := Filtered(copies, (c: Copy) => noClobber && c.target in dstKeys);
    CopiesSound(listed, src, dst, plan);
    plan
  }

  /** Whatever is drawn from `Copies` copies a listed blob to its new name. */
  lemma CopiesSound(listed: seq<string>, src: UniformPath, dst: UniformPath, plan: seq<Copy>)
    requires src.prefix.path.Valid() && dst.prefix.path.Valid()
    requires forall c :: c in plan ==> c in Copies(listed, src, dst)
    ensures forall c :: c in plan ==> c.source in listed && c.target == CopyTarget(c.source, src, dst)
  {
    var copies := Copies(listed, src, dst);
    forall c | c in plan ensures c.source in listed && c.target == CopyTarget(c.source, src, dst) {
      var k :| 0 <= k < |copies| && copies[k] == c;
      assert listed[k] in listed;
    }
  }

  /** `_cp`: the listing, the fan-out guard, then one copy per listed blob
      unless no-clobber finds its new name taken. */
  method PlanCp(srcKeys: Keys, dstKeys: set<string>, src: UniformPath, dst: UniformPath, recursive: bool, noClobber: bool)
    returns (r: Result<seq<Copy>>)
    requires src.prefix.path.Valid() && dst.prefix.path.Valid()
    ensures var listed := CpListing(srcKeys, src, recursive);
            if !recursive && |listed| > 1 then r == Err(NeedsRecursive)
            else r == Ok(CpPlanned(listed, src, dst, dstKeys, noClobber))
  {
    var listOfBlobs := CpListing(srcKeys, src, recursive);
    if !recursive && |listOfBlobs| > 1 {
      return Err(NeedsRecursive);
    }
    var plan: seq<Copy> := [];
    for i := 0 to |listOfBlobs|
      invariant plan == CpPlanned(listOfBlobs[..i], src, dst, dstKeys, noClobber)
    {
      var newName := CopyTarget(listOfBlobs[i], src, dst);
      CpPlannedStep(listOfBlobs, i, src, dst, dstKeys, noClobber);
      if noClobber && newName in dstKeys {
        continue;
      }
      plan := plan + [Copy(listOfBlobs[i], newName)];
    }
    assert listOfBlobs[..|listOfBlobs|] == listOfBlobs;
    return Ok(plan);
  }

  /** Extending the listing by one blob extends the plan by at most its copy. */
  lemma CpPlannedStep(listed: seq<string>, i: nat, src: UniformPath, dst: UniformPath, dstKeys: set<string>, noClobber: bool)
    requires src.prefix.path.Valid() && dst.prefix.path.Valid()
    requires i < |listed|
    ensures var t := CopyTarget(listed[i], src, dst);
            CpPlanned(listed[..i + 1], src, dst, dstKeys, noClobber)
            == CpPlanned(listed[..i], src, dst, dstKeys, noClobber)
               + (if noClobber && t in dstKeys then [] else [Copy(listed[i], t)])
  {
    MappedStep(listed, i, b => Copy(b, CopyTarget(b, src, dst)));
    var next := Copy(listed[i], CopyTarget(listed[i], src, dst));
    FilteredStep(Copies(listed[..i], src, dst), next, (c: Copy) => noClobber && c.target in dstKeys);
  }

  /** Under no-clobber, every listed blob whose new name is free is copied. */
  lemma CpNoClobberComplete(listed: seq<string>, src: UniformPath, dst: UniformPath, dstKeys: set<string>, noClobber: bool)
    requires src.prefix.path.Valid() && dst.prefix.path.Valid()
    ensures forall b :: b in listed && CopyTarget(b, src, dst) !in dstKeys
              ==> Copy(b, CopyTarget(b, src, dst)) in CpPlanned(listed, src, dst, dstKeys, noClobber)
  {
    var copies := Copies(listed, src, dst);
    forall b | b in listed ensures Copy(b, CopyTarget(b, src, dst)) in copies {
      var k :| 0 <= k < |listed| && listed[k] == b;
      assert copies[k] == Copy(b, CopyTarget(b, src, dst));
    }
  }

  /** Without no-clobber, every listed blob is copied, in listing order. */
  lemma CpClobberCopiesAll(listed: seq<string>, src: UniformPath, dst: UniformPath, dstKeys: set<string>)
    requires src.prefix.path.Valid() && dst.prefix.path.Valid()
    ensures var plan := CpPlanned(listed, src, dst, dstKeys, false);
            |plan| == |listed|
            && forall i :: 0 <= i < |listed| ==> plan[i] == Copy(listed[i], CopyTarget(listed[i], src, dst))
  {
    FilteredNone(Copies(listed, src, dst), (c: Copy) => false && c.target in dstKeys);
  }

  /** The new names of a plan. */
  function Targets(plan: seq<Copy>): (ts: set<string>)
    ensures forall c :: c in plan ==> c.target in ts
    ensures forall t :: t in ts ==> exists c :: c in plan && c.target == t
  {
    set c | c in plan :: c.target
  }

  /** Once a plan has run, planning the same copy again under no-clobber
      submits nothing: every new name now exists. */
  lemma {:induction false} CpRerunCopiesNothing(listed: seq<string>, src: UniformPath, dst: UniformPath, dstKeys: set<string>, noClobber: bool)
    requires src.prefix.path.Valid() && dst.prefix.path.Valid()
    ensures var after := dstKeys + Targets(CpPlanned(listed, src, dst, dstKeys, noClobber));
            CpPlanned(listed, src, dst, after, true) == []
  {
    var after := dstKeys + Targets(CpPlanned(listed, src, dst, dstKeys, noClobber));
    CpNoClobberComplete(listed, src, dst, dstKeys, noClobber);
    forall b | b in listed ensures CopyTarget(b, src, dst) in after {
      var t := CopyTarget(b, src, dst);
      if t !in dstKeys {
        assert Copy(b, t) in CpPlanned(listed, src, dst, dstKeys, noClobber);
      }
    }
    AllTaken(listed, src, dst, after);
  }

  /** No-clobber against names that are all taken plans nothing. */
  lemma AllTaken(listed: seq<string>, src: UniformPath, dst: UniformPath, taken: set<string>)
    requires src.prefix.path.Valid() && dst.prefix.path.Valid()
    requires forall b :: b in listed ==> CopyTarget(b, src, dst) in taken
    ensures CpPlanned(listed, src, dst, taken, true) == []
  {
    var copies := Copies(listed, src, dst);
    forall c | c in copies ensures c.target in taken {
      var k :| 0 <= k < |copies| && copies[k] == c;
      assert listed[k] in listed;
    }
    FilteredAll(copies, (c: Copy) => true && c.target in taken);
  }
}
