/** The local-to-local branch of `cp`: what it asks the filesystem to do.
    Whether the source is a file or a directory and whether the destination
    exists are given; the copying itself is not modelled. */
module LocalCopy {

  import opened Errors
  import opened Paths
  import opened Urls
  import opened CopyRemote

  /** `shutil.copy(src, dst)` on the raw arguments, `shutil.copytree` into
      a target path, or nothing at all. */
  datatype LocalAction = NoOp | CopyFile(from: string, to: string) | CopyTree(from: string, to: string)

  /** Where `copytree` puts a directory: below the destination, under the
      source directory's own name. */
  function TreeTarget(src: UniformPath, dst: UniformPath): (t: string)
    requires src.prefix.path.Valid() && dst.prefix.path.Valid()
    ensures t == AsPosix(Path(dst.prefix.path.absolute, dst.prefix.path.segments + NameSegments(src.prefix.path)))
  {
    var parent := ConvertToPosix(NameOfParentDir(src.prefix), false, true, true);
    NameJoins(dst.prefix.path, src.prefix.path);
    AsPosix(JoinStr(dst.prefix.path, parent))
  }

  /** The local branch of `cp`: nothing under no-clobber when the
      destination exists; otherwise a file is copied, a directory copied as
      a tree when recursive, and anything else rejected. */
  function LocalCp(src: string, dst: string, srcIsFile: bool, srcIsDir: bool, dstExists: bool,
                   recursive: bool, noClobber: bool): (r: Result<LocalAction>)
    ensures noClobber && dstExists ==> r == Ok(NoOp)
    ensures !(noClobber && dstExists) ==>
              && (srcIsFile ==> r == Ok(CopyFile(src, dst)))
              && (!srcIsFile && srcIsDir && recursive ==>
                    r == Ok(CopyTree(src, TreeTarget(Classify(src), Classify(dst)))))
              && (!srcIsFile && !(srcIsDir && recursive) ==> r == Err(NeedsRecursive))
  {
    if !noClobber || !dstExists then
      if srcIsFile then Ok(CopyFile(src, dst))
      else if srcIsDir && recursive then
        var s := Classify(src);
        var d := Classify(dst);
        Ok(CopyTree(src, TreeTarget(s, d)))
      else Err(NeedsRecursive)
    else Ok(NoOp)
  }

  /** A recursive copy of a local directory `<dir>` lands at
      `<dst>/<name of dir>`: its parent is the destination and its name is
      the source's name. */
  lemma {:induction false} TreeLandsBelowDestination(src: string, dst: string, srcIsDir: bool, noClobber: bool, dstExists: bool)
    requires !(noClobber && dstExists) && srcIsDir
    requires Classify(src).prefix.path.segments != []
    ensures var r := LocalCp(src, dst, false, srcIsDir, dstExists, true, noClobber);
            var target := Parse(r.value.to);
            && Parent(target) == Classify(dst).prefix.path
            && Name(target) == Name(Classify(src).prefix.path)
  {
    var s := Classify(src).prefix.path;
    var d := Classify(dst).prefix.path;
    var t := Path(d.absolute, d.segments + [Name(s)]);
    assert t.Valid();
    ParseAsPosix(t);
    assert t.segments[..|t.segments| - 1] == d.segments;
  }
}
