/** The few Python `str` operations the wrapper relies on, written out on
    `seq<char>`: prefix tests, `split('/')`, `'/'.join`, `replace` (first
    occurrence and all occurrences), `find`, and the lexicographic order that
    `sorted` uses. */
module Strings {

  import opened Errors

  predicate StartsWith(s: string, p: string) {
    |p| <= |s| && s[..|p|] == p
  }

  predicate EndsWithSlash(s: string) {
    |s| > 0 && s[|s| - 1] == '/'
  }

  /** `s.split('/')`: always at least one piece, none containing '/'. */
  function Split(s: string): (pieces: seq<string>)
    ensures |pieces| >= 1
    ensures forall i :: 0 <= i < |pieces| ==> '/' !in pieces[i]
  {
    if s == [] then [[]]
    else
      var rest := Split(s[1..]);
      if s[0] == '/' then [[]] + rest
      else [[s[0]] + rest[0]] + rest[1..]
  }

  /** `'/'.join(pieces)`. */
  function Join(pieces: seq<string>): string {
    if |pieces| == 0 then []
    else if |pieces| == 1 then pieces[0]
    else pieces[0] + "/" + Join(pieces[1..])
  }

  lemma {:induction false} SplitPrepend(x: string, y: string)
    requires '/' !in x
    ensures Split(x + y) == [x + Split(y)[0]] + Split(y)[1..]
  {
    if x != [] {
      assert (x + y)[1..] == x[1..] + y;
      SplitPrepend(x[1..], y);
      assert [x[0]] + (x[1..] + Split(y)[0]) == x + Split(y)[0];
    } else {
      assert x + y == y;
      var t := Split(y);
      assert [] + t[0] == t[0];
      assert [t[0]] + t[1..] == t;
    }
  }

  lemma SplitSlash(y: string)
    ensures Split("/" + y) == [[]] + Split(y)
  {
    assert ("/" + y)[1..] == y;
  }

  /** Splitting undoes joining pieces that contain no '/'. */
  lemma {:induction false} SplitJoin(pieces: seq<string>)
    requires |pieces| >= 1
    requires forall i :: 0 <= i < |pieces| ==> '/' !in pieces[i]
    ensures Split(Join(pieces)) == pieces
  {
    if |pieces| == 1 {
      SplitPrepend(pieces[0], []);
      assert pieces[0] + [] == pieces[0];
    } else {
      var rest := Join(pieces[1..]);
      SplitJoin(pieces[1..]);
      SplitPrepend(pieces[0], "/" + rest);
      SplitSlash(rest);
      assert pieces[0] + "/" + rest == pieces[0] + ("/" + rest);
      var t := Split("/" + rest);
      assert t[0] == [] && t[1..] == pieces[1..];
      assert pieces[0] + t[0] == pieces[0];
      assert pieces == [pieces[0]] + pieces[1..];
    }
  }

  /** `'/'.join` of two non-empty lists puts one '/' between the halves. */
  lemma {:induction false} JoinAppend(a: seq<string>, b: seq<string>)
    requires |a| >= 1 && |b| >= 1
    ensures Join(a + b) == Join(a) + "/" + Join(b)
  {
    if |a| == 1 {
      assert (a + b)[1..] == b;
    } else {
      assert (a + b)[1..] == a[1..] + b;
      JoinAppend(a[1..], b);
    }
  }

  /** Splitting at an explicit '/' splits each side separately. */
  lemma {:induction false} SplitAround(x: string, y: string)
    ensures Split(x + "/" + y) == Split(x) + Split(y)
  {
    if x == [] {
      assert x + "/" + y == "/" + y;
      SplitSlash(y);
    } else {
      SplitAround(x[1..], y);
      assert x == [x[0]] + x[1..];
      SplitAroundStep(x[0], x[1..], y);
    }
  }

  lemma {:induction false} SplitAroundStep(c: char, r: string, y: string)
    requires Split(r + "/" + y) == Split(r) + Split(y)
    ensures Split([c] + r + "/" + y) == Split([c] + r) + Split(y)
  {
    var big := r + "/" + y;
    assert [c] + r + "/" + y == [c] + big;
    SplitCons(c, r);
    SplitCons(c, big);
    ConsPiece(c, Split(r), Split(y));
  }

  /** Putting a character in front of the first piece commutes with appending pieces. */
  lemma ConsPiece(c: char, head: seq<string>, tail: seq<string>)
    requires |head| >= 1
    ensures [[c] + (head + tail)[0]] + (head + tail)[1..] == ([[c] + head[0]] + head[1..]) + tail
    ensures [[]] + (head + tail) == ([[]] + head) + tail
  {
    assert (head + tail)[0] == head[0] && (head + tail)[1..] == head[1..] + tail;
  }

  lemma {:induction false} SplitCons(c: char, r: string)
    ensures Split([c] + r) == if c == '/' then [[]] + Split(r) else [[c] + Split(r)[0]] + Split(r)[1..]
  {
    assert ([c] + r)[1..] == r;
  }

  /** `f` applied to every element of `xs`, in order. */
  function Mapped<A, B>(xs: seq<A>, f: A -> B): (ys: seq<B>)
    ensures |ys| == |xs|
    ensures forall k :: 0 <= k < |xs| ==> ys[k] == f(xs[k])
  {
    seq(|xs|, k requires 0 <= k < |xs| => f(xs[k]))
  }

  lemma MappedStep<A, B>(xs: seq<A>, i: nat, f: A -> B)
    requires i < |xs|
    ensures Mapped(xs[..i + 1], f) == Mapped(xs[..i], f) + [f(xs[i])]
  {
    assert xs[..i + 1][..i] == xs[..i];
  }

  /** The elements of `xs` that `drop` does not hold of, in order. */
  function Filtered<T(==,!new)>(xs: seq<T>, drop: T -> bool): (kept: seq<T>)
    ensures |kept| <= |xs|
    ensures forall x :: x in kept <==> x in xs && !drop(x)
    decreases |xs|
  {
    if xs == [] then []
    else
      var init := xs[..|xs| - 1];
      var last := xs[|xs| - 1];
      assert forall x :: x in xs <==> x in init || x == last;
      if drop(last) then Filtered(init, drop) else Filtered(init, drop) + [last]
  }

  lemma FilteredStep<T(!new)>(xs: seq<T>, x: T, drop: T -> bool)
    ensures Filtered(xs + [x], drop) == Filtered(xs, drop) + (if drop(x) then [] else [x])
  {
    assert (xs + [x])[..|xs|] == xs;
  }

  /** When `drop` holds of no element, all of them are kept, in order. */
  lemma {:induction false} FilteredNone<T(!new)>(xs: seq<T>, drop: T -> bool)
    requires forall x :: x in xs ==> !drop(x)
    ensures Filtered(xs, drop) == xs
    decreases |xs|
  {
    if xs != [] {
      var init := xs[..|xs| - 1];
      assert forall x :: x in init ==> x in xs;
      FilteredNone(init, drop);
      assert init + [xs[|xs| - 1]] == xs;
    }
  }

  /** When `drop` holds of every element, nothing is kept. */
  lemma {:induction false} FilteredAll<T(!new)>(xs: seq<T>, drop: T -> bool)
    requires forall x :: x in xs ==> drop(x)
    ensures Filtered(xs, drop) == []
    decreases |xs|
  {
    if xs != [] {
      var init := xs[..|xs| - 1];
      assert forall x :: x in init ==> x in xs;
      FilteredAll(init, drop);
    }
  }

  /** The first index at which `d` occurs in `s`, as `s.find(d)` (None for -1). */
  function Find(s: string, d: string): (r: Option<nat>)
    ensures r.Some? ==> r.value + |d| <= |s| && s[r.value..r.value + |d|] == d
    ensures r.Some? ==> forall j :: 0 <= j < r.value ==> !StartsWith(s[j..], d)
    ensures r.None? ==> forall j :: 0 <= j <= |s| ==> !StartsWith(s[j..], d)
  {
    if StartsWith(s, d) then Some(0)
    else if s == [] then None
    else
      TailSlices(s, d);
      match Find(s[1..], d)
      case None => None
      case Some(i) =>
        assert s[i + 1..i + 1 + |d|] == s[1..][i..i + |d|];
        Some(i + 1)
  }

  /** The suffixes of `s[1..]` are those of `s` from index 1 on. */
  lemma TailSlices(s: string, d: string)
    requires |s| > 0
    ensures forall j :: 1 <= j <= |s| ==> (StartsWith(s[j..], d) <==> StartsWith(s[1..][j - 1..], d))
  {
    forall j | 1 <= j <= |s| ensures s[j..] == s[1..][j - 1..] { }
  }

  /** `s.replace(pat, repl, 1)`: only the leftmost occurrence is replaced. */
  function ReplaceFirst(s: string, pat: string, repl: string): string
    decreases |s|
  {
    if StartsWith(s, pat) then repl + s[|pat|..]
    else if s == [] then s
    else [s[0]] + ReplaceFirst(s[1..], pat, repl)
  }

  /** Replacing the first occurrence of a prefix of `s` drops that prefix. */
  lemma ReplaceFirstPrefix(s: string, pat: string, repl: string)
    requires StartsWith(s, pat)
    ensures ReplaceFirst(s, pat, repl) == repl + s[|pat|..]
  {
  }

  /** `s.replace(pat, repl)`: every non-overlapping occurrence, scanned left to
      right; an empty `pat` matches before every character and at the end,
      so `repl` is inserted between all characters, as Python does. */
  function ReplaceAll(s: string, pat: string, repl: string): string
    decreases |s|
  {
    if pat == [] then
      if s == [] then repl else repl + [s[0]] + ReplaceAll(s[1..], pat, repl)
    else if StartsWith(s, pat) then repl + ReplaceAll(s[|pat|..], pat, repl)
    else if s == [] then s
    else [s[0]] + ReplaceAll(s[1..], pat, repl)
  }

  /** Replacing the first occurrence of a prefix by nothing leaves the rest. */
  lemma StripPrefix(a: string, b: string)
    ensures ReplaceFirst(a + b, a, "") == b
  {
    assert (a + b)[..|a|] == a;
    ReplaceFirstPrefix(a + b, a, "");
    assert (a + b)[|a|..] == b;
  }

  /** Replacing with nothing a `pat` that never occurs changes nothing. */
  lemma {:induction false} ReplaceAllAbsent(s: string, pat: string)
    requires pat != []
    requires forall j :: 0 <= j <= |s| ==> !StartsWith(s[j..], pat)
    ensures ReplaceAll(s, pat, []) == s
  {
    if s != [] {
      assert s[0..] == s;
      forall j | 0 <= j <= |s| - 1 ensures !StartsWith(s[1..][j..], pat) {
        assert s[1..][j..] == s[j + 1..];
      }
      ReplaceAllAbsent(s[1..], pat);
    }
  }

  /** Python's `<` on strings: code point by code point, a proper prefix first. */
  predicate Less(a: string, b: string) {
    if a == [] then b != []
    else if b == [] then false
    else a[0] < b[0] || (a[0] == b[0] && Less(a[1..], b[1..]))
  }

  lemma {:induction false} LessIrreflexive(a: string)
    ensures !Less(a, a)
  {
    if a != [] { LessIrreflexive(a[1..]); }
  }

  lemma {:induction false} LessTransitive(a: string, b: string, c: string)
    requires Less(a, b) && Less(b, c)
    ensures Less(a, c)
  {
    if a != [] && b != [] && c != [] && a[0] == b[0] == c[0] {
      LessTransitive(a[1..], b[1..], c[1..]);
    }
  }

  lemma {:induction false} LessTotal(a: string, b: string)
    requires a != b
    ensures Less(a, b) || Less(b, a)
  {
    if a != [] && b != [] && a[0] == b[0] {
      assert a == [a[0]] + a[1..] && b == [b[0]] + b[1..];
      LessTotal(a[1..], b[1..]);
    }
  }

  lemma {:induction false} LessAsymmetric(a: string, b: string)
    requires Less(a, b)
    ensures !Less(b, a)
  {
    if a != [] && b != [] && a[0] == b[0] {
      LessAsymmetric(a[1..], b[1..]);
    }
  }

  /** Every element strictly below the next: sorted and free of repeats. */
  predicate Ascending(s: seq<string>) {
    forall i, j :: 0 <= i < j < |s| ==> Less(s[i], s[j])
  }
}
