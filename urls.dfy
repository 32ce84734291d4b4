/** `_UniformPath`, which splits an address into cloud flag, bucket and
    prefix, and `_contains_wildcard`, the glob guard of `ls`, `cp` and `rm`. */
module Urls {

  import opened Strings
  import opened Paths

  /** `_UniformPath`: for a cloud URL the bucket is the URL's authority and
      the prefix its path; anything else is a local path with bucket ''. */
  datatype UniformPath = UniformPath(isCloudUrl: bool, bucket: string, prefix: GcsPath)

  /** Where the authority of `gs://<authority><path>` ends: at the first '/'
      (section 3.2 of RFC 3986), or at the end of the string. */
  function AuthorityEnd(rest: string): (i: nat)
    ensures i <= |rest|
    ensures forall k :: 0 <= k < i ==> rest[k] != '/'
    ensures i < |rest| ==> rest[i] == '/'
  {
    if rest == [] || rest[0] == '/' then 0 else 1 + AuthorityEnd(rest[1..])
  }

  /** `_UniformPath(res_loc)`, for addresses of the shape `gs://<bucket><path>`
      and for local paths. */
  function Classify(resLoc: string): (u: UniformPath)
    ensures u.prefix.path.Valid()
    ensures u.isCloudUrl <==> StartsWith(resLoc, "gs://")
    // the bucket is the whole '/'-free authority, the prefix the rest
    ensures u.isCloudUrl ==>
              && StartsWith(resLoc, "gs://" + u.bucket)
              && '/' !in u.bucket
              && u.prefix == FromString(resLoc[5 + |u.bucket|..])
              && (5 + |u.bucket| < |resLoc| ==> resLoc[5 + |u.bucket|] == '/')
    // a cloud prefix is the bucket root or an absolute path
    ensures u.isCloudUrl ==> u.prefix.path.absolute || u.prefix.path.segments == []
    ensures !u.isCloudUrl ==> u.bucket == "" && u.prefix == FromString(resLoc)
  {
    if StartsWith(resLoc, "gs://") then
      var rest := resLoc[5..];
      var i := AuthorityEnd(rest);
      assert rest[..i] == resLoc[5..5 + i];
      assert rest[i..] == resLoc[5 + i..];
      assert resLoc[..5 + i] == "gs://" + rest[..i];
      UniformPath(true, rest[..i], FromString(rest[i..]))
    else
      UniformPath(false, "", FromString(resLoc))
  }

  /** A cloud URL built from a bucket and a normalised key decomposes back
      into that bucket, and rendering its prefix with the recorded trailing
      separator gives back the key. */
  lemma {:induction false} CloudRoundTrip(bucket: string, segs: seq<string>, trailing: bool)
    requires '/' !in bucket
    requires forall i :: 0 <= i < |segs| ==> IsSegment(segs[i])
    requires segs == [] ==> !trailing
    ensures var key := Join(segs) + (if trailing then "/" else "");
            var u := Classify("gs://" + bucket + "/" + key);
            && u.isCloudUrl
            && u.bucket == bucket
            && ConvertToPosix(u.prefix, u.prefix.hadTrailingBackslash, true, true) == key
  {
    var key := Join(segs) + (if trailing then "/" else "");
    CloudParts(bucket, "/" + key);
    assert "gs://" + bucket + "/" + key == "gs://" + bucket + ("/" + key);
    KeyRenders(segs, trailing);
  }

  /** The path part `/<key>` of a cloud URL renders back as `<key>`. */
  lemma KeyRenders(segs: seq<string>, trailing: bool)
    requires forall i :: 0 <= i < |segs| ==> IsSegment(segs[i])
    requires segs == [] ==> !trailing
    ensures var key := Join(segs) + (if trailing then "/" else "");
            var g := FromString("/" + key);
            ConvertToPosix(g, g.hadTrailingBackslash, true, true) == key
  {
    if segs == [] {
      RootRenders();
    } else {
      KeyRendersSome(segs, trailing);
    }
  }

  lemma {:induction false} KeyRendersSome(segs: seq<string>, trailing: bool)
    requires |segs| >= 1 && forall i :: 0 <= i < |segs| ==> IsSegment(segs[i])
    ensures var key := Join(segs) + (if trailing then "/" else "");
            var g := FromString("/" + key);
            ConvertToPosix(g, g.hadTrailingBackslash, true, true) == key
  {
    var tail := if trailing then "/" else "";
    var p := Path(true, segs);
    ParsesBack(p, trailing);
    assert "/" + (Join(segs) + tail) == AsPosix(p) + tail;
    var g := GcsPath(trailing, p);
    assert ConvertToPosix(g, trailing, true, true) == Join(segs) + tail;
  }

  /** `gs://<bucket>/` addresses the bucket root: the empty key. */
  lemma RootRenders()
    ensures var g := FromString("/" + Join([]) + "");
            ConvertToPosix(g, g.hadTrailingBackslash, true, true) == ""
  {
    assert "/" + Join([]) + "" == "/" + [];
    SplitSlash([]);
  }

  /** `gs://<bucket><path>` with a '/'-free bucket and a path that is empty
      or starts with '/' classifies as that bucket and that path. */
  lemma CloudParts(bucket: string, path: string)
    requires '/' !in bucket
    requires path == [] || path[0] == '/'
    ensures var u := Classify("gs://" + bucket + path);
            u.isCloudUrl && u.bucket == bucket && u.prefix == FromString(path)
  {
    var url := "gs://" + bucket + path;
    assert url[..5] == "gs://";
    var rest := url[5..];
    assert rest == bucket + path;
    AuthorityEndOf(bucket, path);
    assert rest[..|bucket|] == bucket && rest[|bucket|..] == path;
  }

  lemma {:induction false} AuthorityEndOf(bucket: string, path: string)
    requires '/' !in bucket
    requires path == [] || path[0] == '/'
    ensures AuthorityEnd(bucket + path) == |bucket|
  {
    if bucket != [] {
      assert (bucket + path)[1..] == bucket[1..] + path;
      AuthorityEndOf(bucket[1..], path);
    } else {
      assert bucket + path == path;
    }
  }

  /** A trailing '/' after a non-empty string changes nothing in the path. */
  lemma TrailingSlashCollapses(s: string)
    requires s != []
    ensures Parse(s + "/") == Parse(s)
  {
    SplitAround(s, []);
    assert s + "/" + [] == s + "/";
    CleanAppend(Split(s), [[]]);
    assert (s + "/")[..1] == s[..1];
  }

  /** A rendered non-empty path, with or without one '/' appended, reads
      back as that path with the trailing bit set accordingly. */
  lemma ParsesBack(p: Path, trailing: bool)
    requires p.Valid() && p.segments != []
    ensures FromString(AsPosix(p) + (if trailing then "/" else "")) == GcsPath(trailing, p)
  {
    ParseAsPosix(p);
    AsPosixShape(p);
    if trailing {
      TrailingSlashCollapses(AsPosix(p));
    } else {
      assert AsPosix(p) + "" == AsPosix(p);
    }
  }

  /** A local path that does not start with the cloud scheme keeps its rendering:
      with the recorded trailing separator it comes back unchanged. */
  lemma LocalRoundTrip(segs: seq<string>, absolute: bool, trailing: bool)
    requires |segs| >= 1 && forall i :: 0 <= i < |segs| ==> IsSegment(segs[i])
    ensures var raw := (if absolute then "/" else "") + Join(segs) + (if trailing then "/" else "");
            var u := Classify(raw);
            && !u.isCloudUrl
            && u.bucket == ""
            && ConvertToPosix(u.prefix, u.prefix.hadTrailingBackslash, false, false) == raw
  {
    var p := Path(absolute, segs);
    NotCloudScheme(segs, absolute, trailing);
    assert AsPosix(p) == (if absolute then "/" else "") + Join(segs);
    ParsesBack(p, trailing);
  }

  /** A rendered relative path has no empty segment, so it cannot start with
      `gs://`; an absolute one starts with '/'. */
  lemma NotCloudScheme(segs: seq<string>, absolute: bool, trailing: bool)
    requires |segs| >= 1 && forall i :: 0 <= i < |segs| ==> IsSegment(segs[i])
    ensures !StartsWith((if absolute then "/" else "") + Join(segs) + (if trailing then "/" else ""), "gs://")
  {
    var j := Join(segs);
    var tail := if trailing then "/" else "";
    if absolute {
      var raw := "/" + j + tail;
      assert raw[0] == '/';
      SlashNotScheme(raw);
    } else {
      JoinNotScheme(segs, j, tail);
    }
  }

  lemma SlashNotScheme(raw: string)
    requires |raw| > 0 && raw[0] == '/'
    ensures !StartsWith(raw, "gs://")
  {
  }

  lemma JoinNotScheme(segs: seq<string>, j: string, tail: string)
    requires |segs| >= 1 && forall i :: 0 <= i < |segs| ==> IsSegment(segs[i])
    requires j == Join(segs) && (tail == "" || tail == "/")
    ensures !StartsWith("" + j + tail, "gs://")
  {
    var raw := "" + j + tail;
    JoinEndsClean(segs);
    assert StartsWith(raw, "gs://") ==> |raw| >= 5 && raw[3] == '/' && raw[4] == '/' by {
      if StartsWith(raw, "gs://") {
        SchemeChars(raw);
      }
    }
    if |raw| >= 5 {
      if |j| >= 5 {
        NoDoubleSlash(segs, 3);
        assert raw[3] == j[3] && raw[4] == j[4];
      } else {
        assert raw[3] == j[3] && j[3] == j[|j| - 1];
      }
    }
  }

  lemma SchemeChars(raw: string)
    requires StartsWith(raw, "gs://")
    ensures |raw| >= 5 && raw[3] == '/' && raw[4] == '/'
  {
    assert raw[..5][3] == '/' && raw[..5][4] == '/';
  }

  lemma JoinEndsClean(segs: seq<string>)
    requires |segs| >= 1 && forall i :: 0 <= i < |segs| ==> IsSegment(segs[i])
    ensures |Join(segs)| > 0 && Join(segs)[|Join(segs)| - 1] != '/'
  {
    AsPosixShape(Path(false, segs));
  }

  /** A join of segments never holds two '/' in a row. */
  lemma NoDoubleSlash(segs: seq<string>, k: nat)
    requires |segs| >= 1 && forall i :: 0 <= i < |segs| ==> IsSegment(segs[i])
    requires k + 1 < |Join(segs)|
    ensures !(Join(segs)[k] == '/' && Join(segs)[k + 1] == '/')
  {
    var j := Join(segs);
    if j[k] == '/' && j[k + 1] == '/' {
      var n := DoubleSlashPiece(j, k);
      SplitJoin(segs);
    }
  }

  /** Two '/' in a row leave an empty piece between them. */
  lemma DoubleSlashPiece(j: string, k: nat) returns (n: nat)
    requires k + 1 < |j| && j[k] == '/' && j[k + 1] == '/'
    ensures n < |Split(j)| && Split(j)[n] == []
  {
    var a := Split(j[..k]);
    var b := Split(j[k + 2..]);
    assert j == j[..k] + "/" + ("/" + j[k + 2..]);
    SplitAround(j[..k], "/" + j[k + 2..]);
    SplitSlash(j[k + 2..]);
    assert Split(j) == a + ([[]] + b);
    n := |a|;
  }

  /** A '[' at `i` whose bracket expression `[^]]+]` closes. */
  predicate BracketAt(s: string, i: nat)
    requires i < |s|
  {
    s[i] == '[' && exists j :: i + 1 < j < |s| && s[j] == ']' && forall k :: i < k < j ==> s[k] != ']'
  }

  /** One of the alternatives of `(\*\*|\*|\?|\[[^]]+\])` matches at `i`. */
  predicate WildcardAt(s: string, i: nat)
    requires i < |s|
  {
    s[i] == '*' || s[i] == '?' || BracketAt(s, i)
  }

  /** `_contains_wildcard`: a left-to-right scan for '*', '?' or a '[' that is
      followed by a non-']' and later closed by ']'. It is true exactly when
      the wildcard pattern matches somewhere. */
  function ContainsWildcard(prefix: string): (r: bool)
    ensures r <==> exists i :: 0 <= i < |prefix| && WildcardAt(prefix, i)
  {
    if prefix == [] then false
    else
      var here := prefix[0] == '*' || prefix[0] == '?'
                  || (prefix[0] == '[' && |prefix| >= 2 && prefix[1] != ']' && ']' in prefix[2..]);
      BracketHere(prefix);
      ScanStep(prefix);
      here || ContainsWildcard(prefix[1..])
  }

  lemma BracketHere(s: string)
    requires s != []
    ensures WildcardAt(s, 0) <==> s[0] == '*' || s[0] == '?' || (s[0] == '[' && |s| >= 2 && s[1] != ']' && ']' in s[2..])
  {
    if s[0] == '[' && |s| >= 2 && s[1] != ']' && ']' in s[2..] {
      var j := FirstClose(s, 1);
      assert j >= 2;
      assert BracketAt(s, 0);
    }
    if BracketAt(s, 0) {
      var j :| 1 < j < |s| && s[j] == ']' && forall k :: 0 < k < j ==> s[k] != ']';
      assert s[1] != ']';
      assert s[2..][j - 2] == ']';
    }
  }

  /** The first ']' at or after `from`, given that one exists after index 1. */
  lemma FirstClose(s: string, from: nat) returns (j: nat)
    requires 1 <= from <= |s|
    requires exists m :: from <= m < |s| && s[m] == ']'
    requires forall k :: 0 < k < from ==> s[k] != ']'
    ensures from <= j < |s| && s[j] == ']' && forall k :: 0 < k < j ==> s[k] != ']'
    decreases |s| - from
  {
    if s[from] == ']' {
      j := from;
    } else {
      j := FirstClose(s, from + 1);
    }
  }

  lemma ScanStep(s: string)
    requires s != []
    ensures (exists i :: 0 <= i < |s| && WildcardAt(s, i))
            <==> (WildcardAt(s, 0) || exists i :: 0 <= i < |s[1..]| && WildcardAt(s[1..], i))
  {
    WildcardShift(s);
    if i :| 0 <= i < |s| && WildcardAt(s, i) {
      if i > 0 {
        assert WildcardAt(s[1..], i - 1);
      }
    }
    if i :| 0 <= i < |s[1..]| && WildcardAt(s[1..], i) {
      assert WildcardAt(s, i + 1);
    }
  }

  lemma WildcardShift(s: string)
    requires s != []
    ensures forall i :: 1 <= i < |s| ==> (WildcardAt(s, i) <==> WildcardAt(s[1..], i - 1))
  {
    forall i | 1 <= i < |s|
      ensures WildcardAt(s, i) <==> WildcardAt(s[1..], i - 1)
    {
      if BracketAt(s, i) {
        var j :| i + 1 < j < |s| && s[j] == ']' && forall k :: i < k < j ==> s[k] != ']';
        assert s[1..][j - 1] == ']';
        assert forall k :: i - 1 < k < j - 1 ==> s[1..][k] == s[k + 1];
      }
      if BracketAt(s[1..], i - 1) {
        var j :| i < j < |s| - 1 && s[1..][j] == ']' && forall k :: i - 1 < k < j ==> s[1..][k] != ']';
        assert s[j + 1] == ']';
        assert forall k :: i < k < j + 1 ==> s[k] == s[1..][k - 1];
      }
    }
  }
}
