/** What copying, uploading and removing do to a bucket's keys: a new
    object name is added in its place in the listing order, removed names
    disappear, and every other name stays where it was. */
module Buckets {

  import opened Strings
  import opened Listing

  /** The keys after an object named `k` is written. */
  function Insert(keys: Keys, k: string): (r: Keys)
    ensures Elements(r) == Elements(keys) + {k}
    decreases |keys|
  {
    if keys == [] then [k]
    else if k == keys[0] then keys
    else if Less(k, keys[0]) then [k] + keys
    else
      var tail := Insert(keys[1..], k);
      assert Elements(keys) == {keys[0]} + Elements(keys[1..]);
      [keys[0]] + tail
  }

  /** Writing a name keeps the keys in listing order. */
  lemma {:induction false} InsertAscending(keys: Keys, k: string)
    requires Ascending(keys)
    ensures Ascending(Insert(keys, k))
    decreases |keys|
  {
    if keys != [] && k != keys[0] {
      AscendingTailIf(keys);
      if Less(k, keys[0]) {
        forall x | x in keys ensures Less(k, x) {
          if x != keys[0] {
            LessTransitive(k, keys[0], x);
          }
        }
        AscendingCons(k, keys);
      } else {
        LessTotal(k, keys[0]);
        InsertAscending(keys[1..], k);
        var tail := Insert(keys[1..], k);
        assert forall x :: x in tail ==> x in keys[1..] || x == k;
        AscendingCons(keys[0], tail);
      }
    }
  }

  /** The keys after every name in `names` is written, in that order. */
  function InsertAll(keys: Keys, names: seq<string>): (r: Keys)
    ensures Elements(r) == Elements(keys) + Elements(names)
    decreases |names|
  {
    if names == [] then keys
    else
      var init := names[..|names| - 1];
      assert Elements(names) == Elements(init) + {names[|names| - 1]};
      Insert(InsertAll(keys, init), names[|names| - 1])
  }

  lemma {:induction false} InsertAllAscending(keys: Keys, names: seq<string>)
    requires Ascending(keys)
    ensures Ascending(InsertAll(keys, names))
    decreases |names|
  {
    if names != [] {
      InsertAllAscending(keys, names[..|names| - 1]);
      InsertAscending(InsertAll(keys, names[..|names| - 1]), names[|names| - 1]);
    }
  }

  /** The keys after the objects named in `gone` are deleted. */
  function Without(keys: Keys, gone: set<string>): (r: Keys)
    ensures Elements(r) == Elements(keys) - gone
    ensures Ascending(keys) ==> Ascending(r)
    decreases |keys|
  {
    if keys == [] then []
    else
      var tail := Without(keys[1..], gone);
      assert Elements(keys) == {keys[0]} + Elements(keys[1..]);
      AscendingTailIf(keys);
      if keys[0] in gone then tail
      else
        AscendingCons(keys[0], tail);
        [keys[0]] + tail
  }

  /** Deleting names one after another deletes them all. */
  lemma WithoutTwice(keys: Keys, a: set<string>, b: set<string>)
    requires Ascending(keys)
    ensures Without(Without(keys, a), b) == Without(keys, a + b)
  {
    var l := Without(Without(keys, a), b);
    var r := Without(keys, a + b);
    AscendingUnique(l, r);
  }
}
