/** The path value type of the wrapper: a normalised POSIX path as `pathlib`
    keeps it, and `_GCSPathlib`, which pairs such a path with the one bit that
    normalisation loses, whether the raw string ended with '/'. */
module Paths {

  import opened Strings

  /** A segment of a normalised path: non-empty, not '.', no separator. */
  predicate IsSegment(s: string) {
    s != [] && s != "." && '/' !in s
  }

  /** `pathlib.PurePosixPath` after normalisation: repeated separators,
      a trailing separator and '.' segments are gone. */
  datatype Path = Path(absolute: bool, segments: seq<string>) {
    predicate Valid() {
      forall i :: 0 <= i < |segments| ==> IsSegment(segments[i])
    }
  }

  /** The pieces of `split('/')` that pathlib keeps. */
  function Clean(pieces: seq<string>): (segs: seq<string>)
    ensures forall i :: 0 <= i < |segs| ==> segs[i] != [] && segs[i] != "." && segs[i] in pieces
  {
    if pieces == [] then []
    else if pieces[0] == [] || pieces[0] == "." then Clean(pieces[1..])
    else [pieces[0]] + Clean(pieces[1..])
  }

  lemma {:induction false} CleanAppend(a: seq<string>, b: seq<string>)
    ensures Clean(a + b) == Clean(a) + Clean(b)
  {
    if a != [] {
      assert (a + b)[1..] == a[1..] + b;
      CleanAppend(a[1..], b);
    } else {
      assert a + b == b;
    }
  }

  lemma {:induction false} CleanSegments(segs: seq<string>)
    requires forall i :: 0 <= i < |segs| ==> IsSegment(segs[i])
    ensures Clean(segs) == segs
  {
    if segs != [] {
      CleanSegments(segs[1..]);
    }
  }

  /** `pathlib.PurePosixPath(s)`. */
  function Parse(s: string): (p: Path)
    ensures p.Valid()
    ensures p.absolute <==> StartsWith(s, "/")
  {
    Path(StartsWith(s, "/"), Clean(Split(s)))
  }

  /** `as_posix()`: '.' for the empty relative path, '/' for the root. */
  function AsPosix(p: Path): string {
    if p.absolute then "/" + Join(p.segments)
    else if p.segments == [] then "."
    else Join(p.segments)
  }

  lemma JoinStartsWithFirst(segs: seq<string>)
    requires |segs| >= 1
    ensures StartsWith(Join(segs), segs[0])
  {
  }

  /** The last character of `'/'.join(segs)` is the last one of the last segment. */
  lemma {:induction false} JoinLast(segs: seq<string>)
    requires |segs| >= 1 && segs[|segs| - 1] != []
    ensures |Join(segs)| > 0 && Join(segs)[|Join(segs)| - 1] == segs[|segs| - 1][|segs[|segs| - 1]| - 1]
  {
    if |segs| > 1 {
      JoinLast(segs[1..]);
    }
  }

  /** Normalisation is idempotent: re-parsing a rendered path gives it back. */
  lemma ParseAsPosix(p: Path)
    requires p.Valid()
    ensures Parse(AsPosix(p)) == p
  {
    if p.segments == [] {
      if p.absolute {
        ParseRoot();
      } else {
        ParseDot();
      }
    } else if p.absolute {
      ParseAbsolute(p.segments);
    } else {
      ParseRelative(p.segments);
    }
  }

  lemma ParseRoot()
    ensures Parse("/") == Path(true, [])
  {
    SplitSlash([]);
    assert "/" + [] == "/";
  }

  lemma ParseDot()
    ensures Parse(".") == Path(false, [])
  {
    SplitPrepend(".", []);
    assert "." + [] == ".";
  }

  lemma ParseAbsolute(segs: seq<string>)
    requires |segs| >= 1 && forall i :: 0 <= i < |segs| ==> IsSegment(segs[i])
    ensures Parse("/" + Join(segs)) == Path(true, segs)
  {
    SplitJoin(segs);
    CleanSegments(segs);
    SplitSlash(Join(segs));
    CleanAppend([[]], segs);
  }

  lemma ParseRelative(segs: seq<string>)
    requires |segs| >= 1 && forall i :: 0 <= i < |segs| ==> IsSegment(segs[i])
    ensures Parse(Join(segs)) == Path(false, segs)
  {
    SplitJoin(segs);
    CleanSegments(segs);
    var j := Join(segs);
    JoinStartsWithFirst(segs);
    assert j[..|segs[0]|] == segs[0];
    assert segs[0][0] in segs[0];
    assert j[0] == segs[0][0];
    NoLeadingSlash(j);
  }

  lemma NoLeadingSlash(s: string)
    requires |s| > 0 && s[0] != '/'
    ensures !StartsWith(s, "/")
  {
    assert s[..1][0] == s[0];
  }

  /** A rendered non-empty path never ends with '/', and starts with '/'
      exactly when it is absolute. */
  lemma AsPosixShape(p: Path)
    requires p.Valid() && p.segments != []
    ensures |AsPosix(p)| > 0 && AsPosix(p)[|AsPosix(p)| - 1] != '/'
    ensures AsPosix(p)[0] == '/' <==> p.absolute
  {
    JoinLast(p.segments);
    var last := p.segments[|p.segments| - 1];
    assert last[|last| - 1] in last;
    if !p.absolute {
      JoinStartsWithFirst(p.segments);
      assert Join(p.segments)[0] == p.segments[0][0];
    }
  }

  /** `path.parent`: the root and the empty path are their own parents. */
  function Parent(p: Path): (q: Path)
    ensures q.absolute == p.absolute
    ensures p.segments == [] ==> q == p
    ensures p.segments != [] ==> q.segments + [p.segments[|p.segments| - 1]] == p.segments
  {
    if p.segments == [] then p
    else Path(p.absolute, p.segments[..|p.segments| - 1])
  }

  /** `path.name`: the final segment, '' for the root and the empty path. */
  function Name(p: Path): string {
    if p.segments == [] then "" else p.segments[|p.segments| - 1]
  }

  /** `path / s`: an absolute right operand replaces the left one. */
  function JoinStr(p: Path, s: string): (q: Path)
    ensures !StartsWith(s, "/") ==> q == Path(p.absolute, p.segments + Parse(s).segments)
    ensures StartsWith(s, "/") ==> q == Parse(s)
  {
    var r := Parse(s);
    if r.absolute then r else Path(p.absolute, p.segments + r.segments)
  }

  /** Joining a rendering without a leading '/' appends its segments. */
  lemma JoinRelative(d: Path, s: string, rel: seq<string>)
    requires d.Valid() && forall j :: 0 <= j < |rel| ==> IsSegment(rel[j])
    requires !StartsWith(s, "/") && Parse(s).segments == rel
    ensures JoinStr(d, s) == Path(d.absolute, d.segments + rel)
    ensures JoinStr(d, s).Valid()
  {
    JoinedValid(d, rel);
  }

  /** Appending segments to a valid path keeps it valid. */
  lemma JoinedValid(d: Path, rel: seq<string>)
    requires d.Valid() && forall j :: 0 <= j < |rel| ==> IsSegment(rel[j])
    ensures Path(d.absolute, d.segments + rel).Valid()
  {
    assert forall j :: 0 <= j < |d.segments + rel| ==>
             (d.segments + rel)[j] == if j < |d.segments| then d.segments[j] else rel[j - |d.segments|];
  }

  /** Joining '' or '.' leaves a path as it is. */
  lemma JoinEmpty(p: Path)
    ensures JoinStr(p, "") == p
    ensures JoinStr(p, ".") == p
  {
    SplitPrepend(".", []);
  }

  /** Joining a rendered relative path appends its segments. */
  lemma JoinSegments(p: Path, segs: seq<string>)
    requires forall i :: 0 <= i < |segs| ==> IsSegment(segs[i])
    ensures JoinStr(p, Join(segs)) == Path(p.absolute, p.segments + segs)
  {
    if segs == [] {
      JoinEmpty(p);
    } else {
      ParseAsPosix(Path(false, segs));
      assert p.segments + segs == p.segments + Parse(Join(segs)).segments;
    }
  }

  /** `_GCSPathlib`: the trailing-separator bit is taken from the raw string
      before normalisation and never recomputed. */
  datatype GcsPath = GcsPath(hadTrailingBackslash: bool, path: Path)

  /** `_GCSPathlib(path=s)`. */
  function FromString(s: string): (g: GcsPath)
    ensures g.hadTrailingBackslash <==> EndsWithSlash(s)
    ensures g.path.Valid()
  {
    GcsPath(EndsWithSlash(s), Parse(s))
  }

  /** `_GCSPathlib._convert_to_posix`. */
  function ConvertToPosix(g: GcsPath, addTrailing: bool, removeLeading: bool, isCloud: bool): (r: string)
    requires g.path.Valid()
    // '.' and '/' mean "no key" for a cloud URL
    ensures isCloud && g.path.segments == [] ==> r == ""
    // the rendering normalises: the same segments come back out
    ensures Parse(r).segments == g.path.segments
    // exactly one trailing '/' when asked for, none otherwise
    ensures g.path.segments != [] ==> (EndsWithSlash(r) <==> addTrailing)
    // one leading '/' only on an absolute path, and it is stripped on request
    ensures g.path.segments != [] ==> (StartsWith(r, "/") <==> g.path.absolute && !removeLeading)
    // in closed form: optional leading '/', the segments joined, optional trailing '/'
    ensures g.path.segments != [] ==>
              r == (if g.path.absolute && !removeLeading then "/" else "")
                   + Join(g.path.segments) + (if addTrailing then "/" else "")
  {
    var posix := AsPosix(g.path);
    ParseAsPosix(g.path);
    if (posix == "." || posix == "/") && isCloud then
      ""
    else
      var posix' := if addTrailing then posix + "/" else posix;
      var r := if StartsWithBackslash(g) && removeLeading then posix'[1..] else posix';
      RenderingParses(g.path, addTrailing, removeLeading && g.path.absolute);
      RenderingForm(g.path, addTrailing, removeLeading && g.path.absolute);
      r
  }

  lemma RenderingParses(p: Path, addTrailing: bool, strip: bool)
    requires p.Valid()
    requires strip ==> p.absolute
    ensures var posix' := if addTrailing then AsPosix(p) + "/" else AsPosix(p);
            var r := if strip then posix'[1..] else posix';
            && Parse(r).segments == p.segments
            && (p.segments != [] ==> (EndsWithSlash(r) <==> addTrailing))
            && (p.segments != [] ==> (StartsWith(r, "/") <==> p.absolute && !strip))
  {
    if p.segments == [] {
      EmptyRenderings(p, addTrailing, strip);
    } else {
      var j := Join(p.segments);
      var body := if addTrailing then j + "/" else j;
      var posix' := if addTrailing then AsPosix(p) + "/" else AsPosix(p);
      if p.absolute {
        assert posix' == "/" + body;
        assert ("/" + body)[1..] == body;
        AbsoluteBodyParses(p.segments, addTrailing, strip);
      } else {
        assert posix' == body;
        RelativeBodyParses(p.segments, addTrailing);
      }
    }
  }

  lemma AbsoluteBodyParses(segs: seq<string>, addTrailing: bool, strip: bool)
    requires |segs| >= 1 && forall i :: 0 <= i < |segs| ==> IsSegment(segs[i])
    ensures var j := Join(segs);
            var body := if addTrailing then j + "/" else j;
            var r := if strip then body else "/" + body;
            && Parse(r).segments == segs
            && (EndsWithSlash(r) <==> addTrailing)
            && (StartsWith(r, "/") <==> !strip)
  {
    var j := Join(segs);
    var body := if addTrailing then j + "/" else j;
    BodyParses(segs, addTrailing);
    if strip {
      NoLeadingSlash(body);
    } else {
      SlashParses(body);
      assert ("/" + body)[..1] == "/";
      assert ("/" + body)[|"/" + body| - 1] == body[|body| - 1];
    }
  }

  lemma RelativeBodyParses(segs: seq<string>, addTrailing: bool)
    requires |segs| >= 1 && forall i :: 0 <= i < |segs| ==> IsSegment(segs[i])
    ensures var j := Join(segs);
            var body := if addTrailing then j + "/" else j;
            && Parse(body).segments == segs
            && (EndsWithSlash(body) <==> addTrailing)
            && !StartsWith(body, "/")
  {
    var j := Join(segs);
    var body := if addTrailing then j + "/" else j;
    BodyParses(segs, addTrailing);
    NoLeadingSlash(body);
  }

  lemma RenderingForm(p: Path, addTrailing: bool, strip: bool)
    requires p.Valid()
    requires strip ==> p.absolute
    ensures var posix' := if addTrailing then AsPosix(p) + "/" else AsPosix(p);
            var r := if strip then posix'[1..] else posix';
            p.segments != [] ==> r == (if p.absolute && !strip then "/" else "") + Join(p.segments) + (if addTrailing then "/" else "")
  {
    var j := Join(p.segments);
    if p.absolute {
      assert AsPosix(p) == "/" + j;
      if addTrailing {
        assert ("/" + j + "/")[1..] == j + "/";
      } else {
        assert ("/" + j)[1..] == j;
      }
    }
  }

  /** The renderings of the root and of the empty path have no segments. */
  lemma EmptyRenderings(p: Path, addTrailing: bool, strip: bool)
    requires p.segments == [] && (strip ==> p.absolute)
    ensures var posix' := if addTrailing then AsPosix(p) + "/" else AsPosix(p);
            var r := if strip then posix'[1..] else posix';
            Parse(r).segments == []
  {
    SplitSlash([]);
    assert "/" + [] == "/";
    assert Split("/") == [[], []];
    SplitSlash("/");
    assert Split("//") == [[], [], []];
    SplitPrepend(".", []);
    assert "." + [] == ".";
    assert Split(".") == ["."];
    SplitPrepend(".", "/");
    assert Split("./") == [".", []];
    assert Clean([[], []]) == [] && Clean([[], [], []]) == [];
    assert Clean(["."]) == [] && Clean([".", []]) == [];
    assert Split([]) == [[]] && Clean([[]]) == [];
    if p.absolute {
      assert AsPosix(p) == "/";
      assert "/"[1..] == [];
      assert ("/" + "/")[1..] == "/";
    } else {
      assert AsPosix(p) == ".";
    }
  }

  /** `'/'.join(segs)`, with or without one '/' appended, parses back to `segs`. */
  lemma BodyParses(segs: seq<string>, addTrailing: bool)
    requires |segs| >= 1 && forall i :: 0 <= i < |segs| ==> IsSegment(segs[i])
    ensures var j := Join(segs);
            var body := if addTrailing then j + "/" else j;
            && |body| > 0 && body[0] != '/'
            && Clean(Split(body)) == segs
            && (EndsWithSlash(body) <==> addTrailing)
  {
    var j := Join(segs);
    JoinEnds(segs);
    if addTrailing {
      TrailingBodySplits(segs);
    } else {
      SplitJoin(segs);
      CleanSegments(segs);
    }
  }

  /** `'/'.join(segs)` neither starts nor ends with '/'. */
  lemma JoinEnds(segs: seq<string>)
    requires |segs| >= 1 && forall i :: 0 <= i < |segs| ==> IsSegment(segs[i])
    ensures var j := Join(segs); |j| > 0 && j[0] != '/' && j[|j| - 1] != '/'
  {
    var j := Join(segs);
    JoinStartsWithFirst(segs);
    assert j[..|segs[0]|] == segs[0];
    assert segs[0][0] in segs[0];
    assert j[0] == segs[0][0];
    JoinLast(segs);
    var last := segs[|segs| - 1];
    assert last[|last| - 1] in last;
  }

  lemma TrailingBodySplits(segs: seq<string>)
    requires |segs| >= 1 && forall i :: 0 <= i < |segs| ==> IsSegment(segs[i])
    ensures Clean(Split(Join(segs) + "/")) == segs
  {
    var j := Join(segs);
    SplitJoin(segs);
    CleanSegments(segs);
    SplitAround(j, []);
    assert j + "/" + [] == j + "/";
    CleanAppend(segs, [[]]);
    assert segs + [] == segs;
  }

  /** A leading '/' makes a path absolute and adds no segment. */
  lemma SlashParses(body: string)
    ensures Clean(Split("/" + body)) == Clean(Split(body))
  {
    SplitSlash(body);
    CleanAppend([[]], Split(body));
  }

  /** `_GCSPathlib._starts_with_backslash`: `is_absolute()`. */
  function StartsWithBackslash(g: GcsPath): bool {
    g.path.absolute
  }

  /** A raw string starts with '/' exactly when its path is absolute. */
  lemma StartsWithBackslashOfString(s: string)
    ensures StartsWithBackslash(FromString(s)) <==> |s| > 0 && s[0] == '/'
  {
  }

  /** `_GCSPathlib._name_of_parent_dir`: the rendering with the parent's
      rendering replaced once by nothing. Since the parent's rendering is a
      prefix, what is left is the final segment. */
  function NameOfParentDir(g: GcsPath): (r: GcsPath)
    requires g.path.Valid()
    ensures r.path.Valid() && !r.hadTrailingBackslash
    ensures r.path.segments == if g.path.segments == [] then [] else [Name(g.path)]
    ensures r.path.absolute <==> |g.path.segments| >= 2 || (g.path.absolute && |g.path.segments| == 1)
    ensures ConvertToPosix(r, false, true, true) == Name(g.path)
  {
    var parent := FromString(AsPosix(Parent(g.path)));
    var self := ConvertToPosix(g, false, false, true);
    var pre := ConvertToPosix(parent, false, false, true);
    NameOfParentDirProof(g);
    var rest := ReplaceFirst(self, pre, "");
    if g.path.segments == [] then
      FromString(rest)
    else
      SingleSegment(Name(g.path), |g.path.segments| >= 2 || (g.path.absolute && |g.path.segments| == 1));
      FromString(rest)
  }

  /** A one-segment rendering, relative or absolute, parses to that segment. */
  lemma SingleSegment(name: string, absolute: bool)
    requires IsSegment(name)
    ensures var g := FromString(if absolute then "/" + name else name);
            && g == GcsPath(false, Path(absolute, [name]))
            && ConvertToPosix(g, false, true, true) == name
  {
    var p := Path(absolute, [name]);
    assert Join([name]) == name;
    ParseAsPosix(p);
    AsPosixShape(p);
    if absolute {
      assert AsPosix(p) == "/" + name;
      assert ("/" + name)[1..] == name;
    } else {
      assert AsPosix(p) == name;
    }
  }

  lemma NameOfParentDirProof(g: GcsPath)
    requires g.path.Valid()
    ensures var parent := FromString(AsPosix(Parent(g.path)));
            var rest := ReplaceFirst(ConvertToPosix(g, false, false, true), ConvertToPosix(parent, false, false, true), "");
            rest == if |g.path.segments| >= 2 || (g.path.absolute && |g.path.segments| == 1)
                    then "/" + Name(g.path)
                    else Name(g.path)
  {
    var p := g.path;
    var q := Parent(p);
    ParseAsPosix(q);
    var parent := FromString(AsPosix(q));
    assert parent.path == q;
    var self := ConvertToPosix(g, false, false, true);
    var pre := ConvertToPosix(parent, false, false, true);
    PlainRendering(g);
    PlainRendering(parent);
    var n := |p.segments|;
    if n == 0 {
      assert self == "" && pre == "";
    } else if n == 1 {
      assert pre == "";
      ParentOfSingle(p);
    } else {
      ParentOfMany(p);
    }
  }

  /** With default arguments a non-empty path renders as `as_posix()`. */
  lemma PlainRendering(g: GcsPath)
    requires g.path.Valid()
    ensures ConvertToPosix(g, false, false, true) == if g.path.segments == [] then "" else AsPosix(g.path)
  {
  }

  lemma ParentOfSingle(p: Path)
    requires p.Valid() && |p.segments| == 1
    ensures ReplaceFirst(AsPosix(p), "", "") == if p.absolute then "/" + Name(p) else Name(p)
  {
    var self := AsPosix(p);
    ReplaceFirstPrefix(self, "", "");
    assert self[0..] == self;
    assert Join(p.segments) == p.segments[0];
  }

  lemma ParentOfMany(p: Path)
    requires p.Valid() && |p.segments| >= 2
    ensures ReplaceFirst(AsPosix(p), AsPosix(Parent(p)), "") == "/" + Name(p)
  {
    var q := Parent(p);
    var name := Name(p);
    var self := AsPosix(p);
    var pre := AsPosix(q);
    assert p.segments == q.segments + [name];
    JoinAppend(q.segments, [name]);
    assert Join([name]) == name;
    assert self == pre + "/" + name;
    assert self[..|pre|] == pre;
    ReplaceFirstPrefix(self, pre, "");
    assert self[|pre|..] == "/" + name;
  }

  /** The cloud key of a path: `_GCSPathlib(path=p.as_posix())` rendered
      with the leading '/' removed. */
  function CloudKey(p: Path): (k: string)
    requires p.Valid()
    ensures k == if p.segments == [] then "" else Join(p.segments)
  {
    ParseAsPosix(p);
    var k := ConvertToPosix(FromString(AsPosix(p)), false, true, true);
    CloudKeyForm(p);
    k
  }

  lemma CloudKeyForm(p: Path)
    requires p.Valid()
    ensures ConvertToPosix(FromString(AsPosix(p)), false, true, true)
            == if p.segments == [] then "" else Join(p.segments)
  {
    ParseAsPosix(p);
    if p.segments != [] && p.absolute {
      assert ("/" + Join(p.segments))[1..] == Join(p.segments);
    }
  }
}
