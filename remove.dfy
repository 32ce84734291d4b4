/** Removing (`rm`): which blobs are deleted for an address. The deletions
    themselves are made by the client class; here the selection. */
module Remove {

  import opened Errors
  import opened Strings
  import opened Paths
  import opened Urls
  import opened Listing

  /** The exact key `rm` looks up: the prefix without its leading '/', with
      a trailing '/' exactly when the address had one. */
  function ExactKey(url: UniformPath): (k: string)
    requires url.prefix.path.Valid()
    ensures url.prefix.path.segments == [] ==> k == ""
    ensures url.prefix.path.segments != [] ==>
              k == Join(url.prefix.path.segments) + (if url.prefix.hadTrailingBackslash then "/" else "")
  {
    ConvertToPosix(url.prefix, url.prefix.hadTrailingBackslash, true, true)
  }

  /** The listing prefix of a recursive `rm`: the key and a '/', nothing at
      the bucket root. */
  function TreePrefix(url: UniformPath): (q: string)
    requires url.prefix.path.Valid()
    ensures q == LsQuery(url.prefix)
  {
    ConvertToPosix(url.prefix, true, true, true)
  }

  /** The blobs `rm` deletes, in the order it deletes them: the exact
      object alone, or when recursive every blob listed under the tree
      prefix followed by the exact object if there is one. */
  function RmTargets(keys: Keys, url: UniformPath, recursive: bool): (r: Result<seq<string>>)
    requires url.prefix.path.Valid()
    ensures !url.isCloudUrl ==> r == Err(NotCloudUrl)
    ensures url.isCloudUrl && !recursive ==>
              r == if ExactKey(url) in keys then Ok([ExactKey(url)]) else Err(NothingMatched)
    ensures url.isCloudUrl && recursive ==> r.Ok?
  {
    if !url.isCloudUrl then Err(NotCloudUrl)
    else
      var exact := ExactKey(url);
      var found := exact in keys;
      if !recursive then
        if !found then Err(NothingMatched) else Ok([exact])
      else
        var listed := Objects(keys, TreePrefix(url), Delimiter(recursive));
        Ok(listed + (if found then [exact] else []))
  }

  /** Everything a recursive `rm` deletes exists, and is the exact object or
      lies below the address (at the root: anything); nothing else, such as
      a sibling key sharing the address's text, is touched. */
  lemma RmSound(keys: Keys, url: UniformPath)
    requires url.prefix.path.Valid() && url.isCloudUrl
    ensures var r := RmTargets(keys, url, true);
            forall k :: k in r.value ==> k in keys && (k == ExactKey(url) || StartsWith(k, LsQuery(url.prefix)))
  {
  }

  /** A recursive `rm` deletes every blob below the address, and the exact
      object when there is one. */
  lemma RmComplete(keys: Keys, url: UniformPath)
    requires url.prefix.path.Valid() && url.isCloudUrl
    ensures var r := RmTargets(keys, url, true);
            && (forall k :: k in keys && StartsWith(k, LsQuery(url.prefix)) ==> k in r.value)
            && (ExactKey(url) in keys ==> ExactKey(url) in r.value)
  {
  }

  /** A sibling key that merely extends the address's text (`<key>x/...`
      against the address `<key>`) is never deleted. */
  lemma {:induction false} RmSparesSiblings(keys: Keys, url: UniformPath, sibling: string)
    requires url.prefix.path.Valid() && url.isCloudUrl && url.prefix.path.segments != []
    requires !url.prefix.hadTrailingBackslash
    requires StartsWith(sibling, Join(url.prefix.path.segments))
    requires |sibling| > |Join(url.prefix.path.segments)| && sibling[|Join(url.prefix.path.segments)|] != '/'
    ensures forall recursive :: RmTargets(keys, url, recursive).Ok? ==> sibling !in RmTargets(keys, url, recursive).value
  {
    var key := Join(url.prefix.path.segments);
    assert LsQuery(url.prefix) == key + "/";
    NotBelow(sibling, key);
    RmSound(keys, url);
  }

  /** A text that continues `key` with anything but '/' does not lie below `key`. */
  lemma NotBelow(sibling: string, key: string)
    requires |sibling| > |key| && sibling[|key|] != '/'
    ensures !StartsWith(sibling, key + "/")
  {
    assert sibling[..|key| + 1][|key|] == sibling[|key|];
    assert (key + "/")[|key|] == '/';
  }

  /** With a recursive `rm` of an address without trailing '/', every blob
      is deleted once (with one, the exact placeholder `<key>/` is listed
      under the tree prefix and appended again). */
  lemma {:induction false} RmOnce(keys: Keys, url: UniformPath)
    requires url.prefix.path.Valid() && url.isCloudUrl && Ascending(keys) && "" !in keys
    requires !url.prefix.hadTrailingBackslash
    ensures var r := RmTargets(keys, url, true).value;
            forall i, j :: 0 <= i < j < |r| ==> r[i] != r[j]
  {
    var listed := Objects(keys, TreePrefix(url), "");
    var exact := ExactKey(url);
    var r := RmTargets(keys, url, true).value;
    assert Ascending(listed);
    if url.prefix.path.segments != [] {
      var key := Join(url.prefix.path.segments);
      assert exact == key;
      assert !StartsWith(exact, key + "/");
      assert exact !in listed;
    } else {
      assert LsQuery(url.prefix) == "";
      assert exact == "";
    }
    forall i, j | 0 <= i < j < |r| ensures r[i] != r[j] {
      if j < |listed| {
        assert r[i] == listed[i] && r[j] == listed[j];
        LessIrreflexive(listed[i]);
      } else if url.prefix.path.segments != [] {
        assert r[i] == listed[i] && r[j] == exact;
      }
    }
  }
}
