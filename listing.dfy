/** A bucket as the wrapper sees it through `Bucket.list_blobs`, and the
    listing side of `ls`: the query that `_ls` builds, the merge done by
    `_list_found_blobs`, and the `gs://<bucket>/` prefixing of `ls`. */
module Listing {

  import opened Errors
  import opened Strings
  import opened Paths

  /** The object names of a bucket in the order the service lists them:
      ascending and free of repeats. */
  type Keys = seq<string>

  /** The delimiter `_ls`, `_cp`, `_download` and `rm` pass: none when
      recursive, '/' otherwise. */
  function Delimiter(recursive: bool): (d: string)
    ensures d == "" <==> recursive
    ensures !recursive ==> d == "/"
  {
    if recursive then "" else "/"
  }

  /** The part of a key after the listing prefix. */
  function Rest(k: string, prefix: string): string
    requires StartsWith(k, prefix)
  {
    k[|prefix|..]
  }

  /** A key listed as an object: it starts with the prefix, and the
      delimiter does not occur in the rest. */
  predicate IsObject(k: string, prefix: string, delimiter: string) {
    StartsWith(k, prefix) && (delimiter == "" || Find(Rest(k, prefix), delimiter).None?)
  }

  /** A key rolled up into a common prefix: it starts with the prefix and
      the delimiter occurs in the rest. */
  predicate IsRolledUp(k: string, prefix: string, delimiter: string) {
    StartsWith(k, prefix) && delimiter != "" && Find(Rest(k, prefix), delimiter).Some?
  }

  /** The common prefix a rolled-up key contributes: everything up to and
      including the first delimiter after the prefix. */
  function CommonPrefix(k: string, prefix: string, delimiter: string): (c: string)
    requires IsRolledUp(k, prefix, delimiter)
    ensures StartsWith(c, prefix) && StartsWith(k, c)
    ensures |c| >= |prefix| + |delimiter| && c[|c| - |delimiter|..] == delimiter
    ensures NoEarlierDelimiter(c, prefix, delimiter)
  {
    var rest := Rest(k, prefix);
    var i := Find(rest, delimiter).value;
    var c := prefix + rest[..i + |delimiter|];
    assert c[..|prefix|] == prefix;
    assert k == prefix + rest;
    assert k[..|c|] == c;
    assert c[|c| - |delimiter|..] == rest[i..i + |delimiter|];
    forall j | |prefix| <= j < |c| - |delimiter| ensures !StartsWith(c[j..], delimiter) {
      assert c[j..][..|delimiter|] == rest[j - |prefix|..][..|delimiter|];
    }
    c
  }

  /** The delimiter closing a common prefix is the first one after the
      listing prefix: none starts earlier. */
  predicate NoEarlierDelimiter(c: string, prefix: string, delimiter: string) {
    forall j :: |prefix| <= j < |c| - |delimiter| ==> !StartsWith(c[j..], delimiter)
  }

  /** The objects of `list_blobs(prefix, delimiter)`, in bucket order. */
  function Objects(keys: Keys, prefix: string, delimiter: string): (objs: seq<string>)
    ensures forall k :: k in objs <==> k in keys && IsObject(k, prefix, delimiter)
    ensures Ascending(keys) ==> Ascending(objs)
    ensures |objs| <= |keys|
  {
    if keys == [] then []
    else
      var tail := Objects(keys[1..], prefix, delimiter);
      if IsObject(keys[0], prefix, delimiter) then
        AscendingTailIf(keys);
        assert Ascending(keys) ==> forall k :: k in tail ==> Less(keys[0], k);
        AscendingCons(keys[0], tail);
        [keys[0]] + tail
      else
        AscendingTailIf(keys);
        assert forall k :: k in keys <==> k == keys[0] || k in keys[1..];
        tail
  }

  lemma AscendingCons(x: string, t: seq<string>)
    ensures Ascending(t) && (forall k :: k in t ==> Less(x, k)) ==> Ascending([x] + t)
  {
    if Ascending(t) && forall k :: k in t ==> Less(x, k) {
      var s := [x] + t;
      forall i, j | 0 <= i < j < |s| ensures Less(s[i], s[j]) {
        if i == 0 {
          assert s[j] == t[j - 1] && s[j] in t;
        } else {
          assert s[i] == t[i - 1] && s[j] == t[j - 1];
        }
      }
    }
  }

  lemma AscendingTailIf(keys: seq<string>)
    requires keys != []
    ensures Ascending(keys) ==> Ascending(keys[1..]) && forall k :: k in keys[1..] ==> Less(keys[0], k)
  {
    if Ascending(keys) {
      AscendingTail(keys);
      forall k | k in keys[1..] ensures Less(keys[0], k) {
        var i :| 0 <= i < |keys[1..]| && keys[1..][i] == k;
        assert keys[i + 1] == k;
      }
    }
  }

  /** The prefixes of `list_blobs(prefix, delimiter)`: a set, as the
      iterator's `prefixes` attribute is. */
  function Prefixes(keys: Keys, prefix: string, delimiter: string): (ps: set<string>)
    ensures delimiter == "" ==> ps == {}
    ensures forall c :: c in ps ==> StartsWith(c, prefix) && EndsWithDelimiter(c, prefix, delimiter)
    ensures forall c :: c in ps ==> NoEarlierDelimiter(c, prefix, delimiter)
  {
    set k | k in keys && IsRolledUp(k, prefix, delimiter) :: CommonPrefix(k, prefix, delimiter)
  }

  /** Every key rolled up under a delimiter contributes its cut to the
      prefixes, and every prefix is the cut of some listed key. */
  lemma RolledUpListed(keys: Keys, prefix: string, delimiter: string)
    ensures forall k :: k in keys && IsRolledUp(k, prefix, delimiter) ==> CommonPrefix(k, prefix, delimiter) in Prefixes(keys, prefix, delimiter)
    ensures forall c :: c in Prefixes(keys, prefix, delimiter) ==>
              exists k :: k in keys && IsRolledUp(k, prefix, delimiter) && c == CommonPrefix(k, prefix, delimiter)
  {
  }

  predicate EndsWithDelimiter(c: string, prefix: string, delimiter: string) {
    |c| >= |prefix| + |delimiter| && c[|c| - |delimiter|..] == delimiter
  }

  /** Every key under the prefix is accounted for, either listed as an object
      or below one of the listed prefixes. */
  lemma ListingCovers(keys: Keys, prefix: string, delimiter: string, k: string)
    requires k in keys && StartsWith(k, prefix)
    ensures k in Objects(keys, prefix, delimiter)
            || exists c :: c in Prefixes(keys, prefix, delimiter) && StartsWith(k, c)
  {
    if IsRolledUp(k, prefix, delimiter) {
      var c := CommonPrefix(k, prefix, delimiter);
      assert c in Prefixes(keys, prefix, delimiter);
    }
  }

  /** With a delimiter, no name is listed both as an object and as a
      prefix: an object's rest holds no delimiter, a prefix's rest does. */
  lemma ObjectsAndPrefixesDisjoint(keys: Keys, prefix: string, delimiter: string)
    ensures forall k :: k in Objects(keys, prefix, delimiter) ==> k !in Prefixes(keys, prefix, delimiter)
  {
    forall c | c in Prefixes(keys, prefix, delimiter)
      ensures !IsObject(c, prefix, delimiter)
    {
      var k :| k in keys && IsRolledUp(k, prefix, delimiter) && c == CommonPrefix(k, prefix, delimiter);
      PrefixNotObject(k, prefix, delimiter);
    }
  }

  lemma PrefixNotObject(k: string, prefix: string, delimiter: string)
    requires IsRolledUp(k, prefix, delimiter)
    ensures !IsObject(CommonPrefix(k, prefix, delimiter), prefix, delimiter)
  {
    var c := CommonPrefix(k, prefix, delimiter);
    var rest := Rest(k, prefix);
    var i := Find(rest, delimiter).value;
    assert Rest(c, prefix) == rest[..i + |delimiter|];
    assert Rest(c, prefix)[i..][..|delimiter|] == rest[i..i + |delimiter|];
    assert StartsWith(Rest(c, prefix)[i..], delimiter);
  }

  /** Without a delimiter the listing is flat: every key under the prefix
      is an object, in bucket order, and there are no prefixes. */
  lemma FlatListing(keys: Keys, prefix: string)
    ensures forall k :: k in Objects(keys, prefix, "") <==> k in keys && StartsWith(k, prefix)
    ensures Prefixes(keys, prefix, "") == {}
  {
  }

  /** The elements of a sequence, as a set. */
  function Elements(s: seq<string>): (e: set<string>)
    ensures forall x :: x in e <==> x in s
  {
    set x | x in s
  }

  /** The least element of a non-empty set of names. */
  lemma {:induction false} Least(s: set<string>) returns (m: string)
    requires s != {}
    ensures m in s && forall y :: y in s && y != m ==> Less(m, y)
    decreases |s|
  {
    var x :| x in s;
    if s == {x} {
      m := x;
    } else {
      var m' := Least(s - {x});
      if Less(x, m') {
        m := x;
        forall y | y in s && y != m ensures Less(m, y) {
          if y != m' { LessTransitive(x, m', y); }
        }
      } else {
        LessTotal(x, m');
        m := m';
      }
    }
  }

  /** `sorted(subdirectories)` on the set of prefixes: the names in ascending
      order, each exactly once. */
  method SortNames(names: set<string>) returns (sorted: seq<string>)
    ensures Ascending(sorted)
    ensures Elements(sorted) == names
    ensures |sorted| == |names|
  {
    sorted := [];
    var remaining := names;
    while remaining != {}
      invariant Ascending(sorted)
      invariant Elements(sorted) + remaining == names
      invariant forall i, y :: 0 <= i < |sorted| && y in remaining ==> Less(sorted[i], y)
      invariant |sorted| + |remaining| == |names|
      decreases |remaining|
    {
      ghost var least := Least(remaining);
      var m :| m in remaining && forall y :: y in remaining && y != m ==> Less(m, y);
      SortStep(sorted, remaining, names, m);
      sorted := sorted + [m];
      remaining := remaining - {m};
    }
  }

  /** One step of `SortNames` keeps its loop invariant. */
  lemma SortStep(sorted: seq<string>, remaining: set<string>, names: set<string>, m: string)
    requires Ascending(sorted)
    requires Elements(sorted) + remaining == names
    requires forall i, y :: 0 <= i < |sorted| && y in remaining ==> Less(sorted[i], y)
    requires |sorted| + |remaining| == |names|
    requires m in remaining && forall y :: y in remaining && y != m ==> Less(m, y)
    ensures Ascending(sorted + [m])
    ensures Elements(sorted + [m]) + (remaining - {m}) == names
    ensures forall i, y :: 0 <= i < |sorted + [m]| && y in remaining - {m} ==> Less((sorted + [m])[i], y)
    ensures |sorted + [m]| + |remaining - {m}| == |names|
  {
    AppendLeast(sorted, remaining, m);
  }

  /** Moving the least remaining name to the end of the sorted part keeps
      the sorted part ascending and below everything that remains. */
  lemma AppendLeast(sorted: seq<string>, remaining: set<string>, m: string)
    requires Ascending(sorted)
    requires forall i, y :: 0 <= i < |sorted| && y in remaining ==> Less(sorted[i], y)
    requires m in remaining && forall y :: y in remaining && y != m ==> Less(m, y)
    ensures Ascending(sorted + [m])
    ensures Elements(sorted + [m]) == Elements(sorted) + {m}
    ensures forall i, y :: 0 <= i < |sorted + [m]| && y in remaining - {m} ==> Less((sorted + [m])[i], y)
  {
    var t := sorted + [m];
    forall i, j | 0 <= i < j < |t| ensures Less(t[i], t[j]) {
      assert t[i] == sorted[i];
    }
    forall i, y | 0 <= i < |t| && y in remaining - {m} ensures Less(t[i], y) {
      if i < |sorted| {
        assert t[i] == sorted[i];
      }
    }
  }

  /** Two ascending sequences with the same elements are the same: the
      sorted order of the prefixes is unique. */
  lemma {:induction false} AscendingUnique(a: seq<string>, b: seq<string>)
    requires Ascending(a) && Ascending(b) && Elements(a) == Elements(b)
    ensures a == b
    decreases |a|
  {
    EmptyTogether(a, b);
    if a != [] {
      assert a[0] in Elements(b) && b[0] in Elements(a);
      if a[0] != b[0] {
        var i :| 0 <= i < |b| && b[i] == a[0];
        var j :| 0 <= j < |a| && a[j] == b[0];
        assert Less(b[0], a[0]) by { assert i > 0; }
        assert Less(a[0], b[0]) by { assert j > 0; }
        LessAsymmetric(a[0], b[0]);
      }
      forall x ensures x in Elements(a[1..]) <==> x in Elements(b[1..]) {
        if x in a[1..] {
          var i :| 1 <= i < |a| && a[i] == x;
          assert Less(a[0], x);
          LessIrreflexive(x);
          assert x in b && x != b[0];
          var j :| 0 <= j < |b| && b[j] == x;
          assert j != 0;
          assert b[1..][j - 1] == x;
        }
        if x in b[1..] {
          var j :| 1 <= j < |b| && b[j] == x;
          assert Less(b[0], x);
          LessIrreflexive(x);
          assert x in a && x != a[0];
          var i :| 0 <= i < |a| && a[i] == x;
          assert i != 0;
          assert a[1..][i - 1] == x;
        }
      }
      AscendingTail(a);
      AscendingTail(b);
      AscendingUnique(a[1..], b[1..]);
      assert a == [a[0]] + a[1..] && b == [b[0]] + b[1..];
    }
  }

  lemma EmptyTogether(a: seq<string>, b: seq<string>)
    requires Elements(a) == Elements(b)
    ensures a == [] <==> b == []
  {
    if a != [] {
      assert a[0] in Elements(b);
    }
    if b != [] {
      assert b[0] in Elements(a);
    }
  }

  lemma AscendingTail(a: seq<string>)
    requires Ascending(a) && a != []
    ensures Ascending(a[1..])
  {
    forall i, j | 0 <= i < j < |a[1..]| ensures Less(a[1..][i], a[1..][j]) {
      assert a[1..][i] == a[i + 1] && a[1..][j] == a[j + 1];
    }
  }

  /** What `_list_found_blobs` returns for a listing: all object names in
      iterator order, then all prefixes in ascending order. */
  predicate IsMerged(names: seq<string>, objects: seq<string>, prefixes: set<string>) {
    && |names| == |objects| + |prefixes|
    && names[..|objects|] == objects
    && Ascending(names[|objects|..])
    && Elements(names[|objects|..]) == prefixes
  }

  /** The merged listing of a set of names is determined by it. */
  lemma MergedUnique(a: seq<string>, b: seq<string>, objects: seq<string>, prefixes: set<string>)
    requires IsMerged(a, objects, prefixes) && IsMerged(b, objects, prefixes)
    ensures a == b
  {
    AscendingUnique(a[|objects|..], b[|objects|..]);
    assert a == a[..|objects|] + a[|objects|..];
    assert b == b[..|objects|] + b[|objects|..];
  }

  /** `_list_found_blobs(iterator)`: the object names, in iterator order,
      followed by the sorted prefixes. */
  method ListFoundBlobs(objects: seq<string>, prefixes: set<string>) returns (names: seq<string>)
    ensures IsMerged(names, objects, prefixes)
  {
    var subdirectories := SortNames(prefixes);
    names := [];
    for i := 0 to |objects|
      invariant names == objects[..i]
    {
      names := names + [objects[i]];
    }
    var n := |names|;
    for i := 0 to |subdirectories|
      invariant names == objects + subdirectories[..i]
    {
      names := names + [subdirectories[i]];
    }
    assert names[..n] == objects;
    assert names[n..] == subdirectories;
  }

  /** With a delimiter, a merged listing of an ascending bucket names no
      entry twice. */
  lemma MergedDistinct(keys: Keys, prefix: string, delimiter: string, names: seq<string>)
    requires Ascending(keys)
    requires IsMerged(names, Objects(keys, prefix, delimiter), Prefixes(keys, prefix, delimiter))
    ensures forall i, j :: 0 <= i < j < |names| ==> names[i] != names[j]
  {
    ObjectsAndPrefixesDisjoint(keys, prefix, delimiter);
    MergedDistinctOf(names, Objects(keys, prefix, delimiter), Prefixes(keys, prefix, delimiter));
  }

  lemma MergedDistinctOf(names: seq<string>, objs: seq<string>, ps: set<string>)
    requires Ascending(objs) && IsMerged(names, objs, ps)
    requires forall k :: k in objs ==> k !in ps
    ensures forall i, j :: 0 <= i < j < |names| ==> names[i] != names[j]
  {
    var n := |objs|;
    forall i, j | 0 <= i < j < |names| ensures names[i] != names[j] {
      if j < n {
        assert names[i] == objs[i] && names[j] == objs[j];
        LessIrreflexive(objs[i]);
      } else if i >= n {
        assert names[i] == names[n..][i - n] && names[j] == names[n..][j - n];
        LessIrreflexive(names[i]);
      } else {
        assert names[i] == objs[i];
        assert names[j] == names[n..][j - n];
        assert names[j] in Elements(names[n..]);
      }
    }
  }

  /** The prefix `_ls` queries: the key with one '/' appended, or '' at the
      bucket root, never a leading '/'. */
  function LsQuery(prefix: GcsPath): (q: string)
    requires prefix.path.Valid()
    ensures prefix.path.segments == [] ==> q == ""
    ensures prefix.path.segments != [] ==> q == Join(prefix.path.segments) + "/"
  {
    ConvertToPosix(prefix, true, true, true)
  }

  /** The URLs `ls` returns: each listed name behind `gs://<bucket>/`. */
  method AddUrlPrefix(bucket: string, names: seq<string>) returns (urls: seq<string>)
    ensures |urls| == |names|
    ensures forall i :: 0 <= i < |names| ==> urls[i] == "gs://" + bucket + "/" + names[i]
  {
    urls := [];
    for i := 0 to |names|
      invariant |urls| == i
      invariant forall j :: 0 <= j < i ==> urls[j] == "gs://" + bucket + "/" + names[j]
    {
      urls := urls + ["gs://" + bucket + "/" + names[i]];
    }
  }

  /** A non-recursive listing under `<key>/` holds only direct children: an
      object with no further '/', or a prefix that adds one segment and a '/'. */
  lemma DirectChildren(keys: Keys, key: string, names: seq<string>)
    requires IsMerged(names, Objects(keys, key, "/"), Prefixes(keys, key, "/"))
    ensures forall i :: 0 <= i < |names| ==>
              StartsWith(names[i], key)
              && (names[i] in Objects(keys, key, "/") ==> '/' !in Rest(names[i], key))
              && (names[i] !in Objects(keys, key, "/") ==>
                    EndsWithSlash(names[i]) && |names[i]| > |key| && '/' !in names[i][|key|..|names[i]| - 1])
  {
    var objs, ps := Objects(keys, key, "/"), Prefixes(keys, key, "/");
    ObjectsNoSlash(keys, key);
    PrefixesOneSegment(keys, key);
    MergedChildren(names, objs, ps, key);
  }

  lemma ObjectsNoSlash(keys: Keys, key: string)
    ensures forall o :: o in Objects(keys, key, "/") ==> StartsWith(o, key) && '/' !in Rest(o, key)
  {
    forall o | o in Objects(keys, key, "/") ensures StartsWith(o, key) && '/' !in Rest(o, key) {
      NoSlashFound(Rest(o, key));
    }
  }

  lemma PrefixesOneSegment(keys: Keys, key: string)
    ensures forall c :: c in Prefixes(keys, key, "/") ==>
              StartsWith(c, key) && EndsWithSlash(c) && |c| > |key| && '/' !in c[|key|..|c| - 1]
  {
    forall c | c in Prefixes(keys, key, "/")
      ensures StartsWith(c, key) && EndsWithSlash(c) && |c| > |key| && '/' !in c[|key|..|c| - 1]
    {
      OneSegment(c, key);
    }
  }

  lemma MergedChildren(names: seq<string>, objs: seq<string>, ps: set<string>, key: string)
    requires IsMerged(names, objs, ps)
    requires forall o :: o in objs ==> StartsWith(o, key) && '/' !in Rest(o, key)
    requires forall c :: c in ps ==> StartsWith(c, key) && EndsWithSlash(c) && |c| > |key| && '/' !in c[|key|..|c| - 1]
    ensures forall i :: 0 <= i < |names| ==>
              StartsWith(names[i], key)
              && (names[i] in objs ==> '/' !in Rest(names[i], key))
              && (names[i] !in objs ==>
                    EndsWithSlash(names[i]) && |names[i]| > |key| && '/' !in names[i][|key|..|names[i]| - 1])
  {
    var n := |objs|;
    forall i | 0 <= i < |names|
      ensures names[i] in objs || names[i] in ps
    {
      if i < n {
        assert names[i] == objs[i];
      } else {
        assert names[i] == names[n..][i - n];
        assert names[i] in Elements(names[n..]);
      }
    }
  }

  /** A common prefix under `key` with '/' holds no '/' between the key and its last character. */
  lemma OneSegment(c: string, key: string)
    requires |c| > |key| && NoEarlierDelimiter(c, key, "/")
    ensures '/' !in c[|key|..|c| - 1]
  {
    forall j | |key| <= j < |c| - 1 ensures c[j] != '/' {
      assert !StartsWith(c[j..], "/");
      assert c[j..][..1] == [c[j]];
    }
  }

  /** `find('/')` finds nothing exactly when '/' does not occur. */
  lemma NoSlashFound(s: string)
    requires Find(s, "/").None?
    ensures '/' !in s
  {
    forall i | 0 <= i < |s| ensures s[i] != '/' {
      assert !StartsWith(s[i..], "/");
      assert s[i..][0] == s[i];
    }
  }
}
