/** The picture ring buffer of output_file.c: `maintain_ringbuffer` and the loop of `worker_thread`. */
module FileRing {
  import opened Bits
  import opened FileNames

  /** The files that the clean-up sees. */
  ghost function Pictures(files: set<Name>): set<Name> {
    set f | f in files && CheckForFilename(f)
  }

  /** What `scandir` returns. */
  ghost predicate IsListing(names: seq<Name>, files: set<Name>) {
    && (forall f :: f in names <==> f in Pictures(files))
    && Ascending(names)
  }

  /** Every folder has a listing. */
  lemma {:induction false} ListingExists(files: set<Name>) returns (names: seq<Name>)
    ensures IsListing(names, files)
    decreases |files|
  {
    names := [];
    if f :| f in files {
      names := ListingExists(files - {f});
      if CheckForFilename(f) {
        var n := Place(names, f);
        hide CheckForFilename, Less;
        assert names == names[..n] + names[n..];
        assert forall x :: x in names[..n] + [f] + names[n..] <==> x == f || x in names[..n] + names[n..];
        names := names[..n] + [f] + names[n..];
      }
    }
  }

  lemma {:induction false} Place(names: seq<Name>, f: Name) returns (n: nat)
    requires Ascending(names) && f !in names
    ensures n <= |names| && Ascending(names[..n] + [f] + names[n..])
  {
    n := 0;
    while n < |names| && Less(names[n], f)
      invariant n <= |names| && forall i :: 0 <= i < n ==> Less(names[i], f)
    {
      n := n + 1;
    }
    forall i | n <= i < |names| ensures Less(f, names[i]) {
      LessIsOrder(f, names[n]);
      if i > n {
        LessTransitive(f, names[n], names[i]);
      }
    }
    hide Less;
  }

  /** A clean-up removes pictures only, the ones that come first, until at most `size` are left. */
  ghost predicate KeepsNewest(was: set<Name>, now: set<Name>, size: nat) {
    && now <= was && was - now <= Pictures(was)
    && (forall d, k :: d in was - now && k in Pictures(now) ==> Less(d, k))
    && |Pictures(now)| == if |Pictures(was)| <= size then |Pictures(was)| else size
  }

  lemma NoneRemoved(was: set<Name>, now: set<Name>)
    requires now <= was && was - now <= Pictures(was) && |Pictures(now)| >= |Pictures(was)|
    ensures now == was
  {
    var kept, gone := Pictures(now), was - now;
    assert Pictures(was) == kept + gone && kept * gone == {};
    assert |Pictures(was)| == |kept| + |gone|;
    assert gone == {};
  }

  lemma RemovedAreOld(was: set<Name>, a: set<Name>, b: set<Name>, size: nat, x: Name, y: Name)
    requires KeepsNewest(was, a, size) && KeepsNewest(was, b, size)
    requires x in a && x !in b && y in b && y !in a
    ensures Less(x, y)
  {
    assert x in was - b && y in was - a;
    assert y in Pictures(b);
  }

  /** There is only one such clean-up. */
  lemma KeepsNewestUnique(was: set<Name>, a: set<Name>, b: set<Name>, size: nat)
    requires KeepsNewest(was, a, size) && KeepsNewest(was, b, size)
    ensures a == b
  {
    if x :| x in a && x !in b {
      if y :| y in b && y !in a {
        RemovedAreOld(was, a, b, size, x, y);
        RemovedAreOld(was, b, a, size, y, x);
        LessIsOrder(x, y);
      } else {
        Contained(was, a, b, size);
      }
    } else {
      Contained(was, b, a, size);
    }
  }

  lemma Contained(was: set<Name>, a: set<Name>, b: set<Name>, size: nat)
    requires KeepsNewest(was, a, size) && KeepsNewest(was, b, size) && b <= a
    ensures a == b
  {
    forall x | x in a - b ensures x in Pictures(a) {
      assert x in was - b;
    }
    NoneRemoved(a, b);
  }

  ghost predicate Ascending(names: seq<Name>) {
    forall i, j :: 0 <= i < j < |names| ==> Less(names[i], names[j])
  }

  function Elements(names: seq<Name>, n: nat): (e: set<Name>)
    requires n <= |names|
    ensures forall i :: 0 <= i < n ==> names[i] in e
  {
    if n == 0 then {} else Elements(names, n - 1) + {names[n - 1]}
  }

  lemma {:induction false} WhereElement(names: seq<Name>, n: nat, f: Name) returns (i: nat)
    requires n <= |names| && f in Elements(names, n)
    ensures i < n && names[i] == f
  {
    if f == names[n - 1] {
      i := n - 1;
    } else {
      i := WhereElement(names, n - 1, f);
    }
  }

  lemma {:induction false} ElementsSize(names: seq<Name>, n: nat)
    requires n <= |names| && Distinct(names)
    ensures |Elements(names, n)| == n
  {
    if n > 0 {
      ElementsSize(names, n - 1);
      if names[n - 1] in Elements(names, n - 1) {
        var i := WhereElement(names, n - 1, names[n - 1]);
      }
    }
  }

  ghost predicate Distinct(names: seq<Name>) {
    forall i, j :: 0 <= i < j < |names| ==> names[i] != names[j]
  }

  lemma AscendingIsDistinct(names: seq<Name>)
    requires Ascending(names)
    ensures Distinct(names)
  {
    forall i, j | 0 <= i < j < |names| ensures names[i] != names[j] {
      LessIsOrder(names[i], names[j]);
    }
  }

  lemma ListingElements(names: seq<Name>, files: set<Name>)
    requires IsListing(names, files)
    ensures Elements(names, |names|) == Pictures(files) && |Pictures(files)| == |names|
  {
    AscendingIsDistinct(names);
    ElementsSize(names, |names|);
    forall f ensures f in Elements(names, |names|) <==> f in Pictures(files) {
      if f in Elements(names, |names|) {
        var i := WhereElement(names, |names|, f);
      }
    }
  }

  lemma DeletedOrder(names: seq<Name>, was: set<Name>, n: nat, d: Name, k: Name)
    requires IsListing(names, was) && n <= |names|
    requires d in Elements(names, n) && k in Pictures(was - Elements(names, n))
    ensures Less(d, k)
  {
    ListingElements(names, was);
    var i := WhereElement(names, n, d);
    var j := WhereElement(names, |names|, k);
  }

  lemma DeletedSize(names: seq<Name>, was: set<Name>, n: nat)
    requires IsListing(names, was) && n <= |names|
    ensures Elements(names, n) <= Pictures(was)
    ensures |Pictures(was - Elements(names, n))| == |names| - n && |Pictures(was)| == |names|
  {
    var gone := Elements(names, n);
    ListingElements(names, was);
    AscendingIsDistinct(names);
    ElementsSize(names, n);
    forall d | d in gone ensures d in Pictures(was) {
      var i := WhereElement(names, n, d);
      assert names[i] in names;
    }
    hide Elements, IsListing;
    assert Pictures(was - gone) == Pictures(was) - gone;
    assert Pictures(was) * gone == gone;
  }

  /** Deleting the first `n` names of a listing. */
  lemma DeletedFirst(names: seq<Name>, was: set<Name>, n: nat, size: nat)
    requires IsListing(names, was) && n == if |names| <= size then 0 else |names| - size
    ensures KeepsNewest(was, was - Elements(names, n), size)
  {
    var gone := Elements(names, n);
    DeletedSize(names, was, n);
    assert was - (was - gone) == gone;
    forall d, k | d in gone && k in Pictures(was - gone) ensures Less(d, k) {
      DeletedOrder(names, was, n, d, k);
    }
    hide Elements, IsListing, Less;
  }

  // The pictures of one run

  /** The names of the last `n` pictures of a run, as they were written. */
  function Newest(taken: seq<Stamp>, n: nat): (names: seq<Name>)
    requires n <= |taken|
    ensures |names| == n
    ensures forall i :: 0 <= i < n ==> names[i] == PictureName(taken[|taken| - n + i], |taken| - n + i)
  {
    seq(n, i requires 0 <= i < n => PictureName(taken[|taken| - n + i], |taken| - n + i))
  }

  /** No picture is taken before an earlier one, and within a second the written counters are in order. */
  ghost predicate Timely(taken: seq<Stamp>) {
    && (forall i :: 0 <= i < |taken| ==> taken[i].Valid())
    && forall i, j :: 0 <= i < j < |taken| ==> InOrder(taken, i, j)
  }

  ghost predicate InOrder(taken: seq<Stamp>, i: nat, j: nat)
    requires i < |taken| && j < |taken|
  {
    Earlier(taken[i], taken[j]) || (taken[i] == taken[j] && CounterLess(i, j))
  }

  lemma NewestOrder(taken: seq<Stamp>, n: nat, i: nat, j: nat)
    requires n <= |taken| && i < n && j < n
    requires forall k :: 0 <= k < |taken| ==> taken[k].Valid()
    ensures Less(Newest(taken, n)[i], Newest(taken, n)[j]) <==> InOrder(taken, |taken| - n + i, |taken| - n + j)
  {
    hide PictureName, Less, CounterLess, Earlier;
    var first := |taken| - n;
    NameOrder(taken[first + i], taken[first + j], first + i, first + j);
  }

  /** Byte order is the order of creation, for any number of the last pictures. */
  lemma NewestAscend(taken: seq<Stamp>, n: nat)
    requires n <= |taken| && Timely(taken)
    ensures Ascending(Newest(taken, n))
  {
    hide PictureName, Less, InOrder;
    forall i, j | 0 <= i < j < n ensures Less(Newest(taken, n)[i], Newest(taken, n)[j]) {
      NewestOrder(taken, n, i, j);
    }
  }

  /** And for a whole run it is exactly in this case. */
  lemma AscendIff(taken: seq<Stamp>)
    requires forall i :: 0 <= i < |taken| ==> taken[i].Valid()
    ensures Ascending(Newest(taken, |taken|)) <==> Timely(taken)
  {
    hide PictureName, Less, InOrder;
    forall i, j | 0 <= i < j < |taken|
      ensures Less(Newest(taken, |taken|)[i], Newest(taken, |taken|)[j]) <==> InOrder(taken, i, j)
    {
      NewestOrder(taken, |taken|, i, j);
    }
    if Timely(taken) {
      NewestAscend(taken, |taken|);
    } else if Ascending(Newest(taken, |taken|)) {
      forall i, j | 0 <= i < j < |taken| ensures InOrder(taken, i, j) {
        assert Less(Newest(taken, |taken|)[i], Newest(taken, |taken|)[j]);
      }
    }
  }

  /** Local time that does not go back is enough while the counter keeps to nine digits. */
  lemma SteadyClock(taken: seq<Stamp>)
    requires |taken| <= 1000000000 && forall i :: 0 <= i < |taken| ==> taken[i].Valid()
    requires forall i, j :: 0 <= i < j < |taken| ==> !Earlier(taken[j], taken[i])
    ensures Timely(taken)
  {
    forall i, j | 0 <= i < j < |taken| ensures InOrder(taken, i, j) {
      TenDigits(i, j);
      SameTime(taken[i], taken[j]);
    }
  }

  predicate CleansUp(counter: nat, exceed: int) {
    exceed <= 0 || counter == 1 || counter % (exceed + 1) == 0
  }

  /** How many pictures are left after `counter` iterations in an empty folder. */
  function Kept(counter: nat, size: int, exceed: int): nat {
    if counter == 0 then 0 else
      var k := Kept(counter - 1, size, exceed) + 1;
      if 0 <= size < k && CleansUp(counter, exceed) then size else k
  }

  function Slack(counter: nat, exceed: int): nat {
    if exceed <= 0 then 0 else counter % (exceed + 1)
  }

  lemma SlackGrows(counter: nat, exceed: int)
    requires counter > 0 && exceed > 0 && counter % (exceed + 1) != 0
    ensures Slack(counter, exceed) == Slack(counter - 1, exceed) + 1 <= exceed
  {
    var q, r := (counter - 1) / (exceed + 1), (counter - 1) % (exceed + 1);
    if r == exceed {
      ModUnique(counter, exceed + 1, q + 1, 0);
    } else {
      ModUnique(counter, exceed + 1, q, r + 1);
    }
  }

  /** Never fewer than the newest `size` pictures, never more than `size + exceed`. */
  lemma {:induction false} KeptBounds(counter: nat, size: int, exceed: int)
    requires size >= 0
    ensures Kept(counter, size, exceed) >= if counter < size then counter else size
    ensures Kept(counter, size, exceed) <= counter
    ensures counter > 0 ==> Kept(counter, size, exceed) <= size + Slack(counter, exceed)
    ensures Kept(counter, size, exceed) <= size + if exceed > 0 then exceed else 0
  {
    if counter > 0 {
      KeptBounds(counter - 1, size, exceed);
      if !CleansUp(counter, exceed) {
        SlackGrows(counter, exceed);
      }
    }
  }

  lemma ListingTail(names: seq<Name>, files: set<Name>, k: nat)
    requires IsListing(names, files) && k <= |names|
    ensures IsListing(names[k..], files - Elements(names, k))
  {
    var later := names[k..];
    AscendingIsDistinct(names);
    forall f ensures f in later <==> f in Pictures(files - Elements(names, k)) {
      TailElement(names, k, f);
    }
    hide Less;
  }

  lemma TailElement(names: seq<Name>, k: nat, f: Name)
    requires Distinct(names) && k <= |names|
    ensures f in names[k..] <==> f in names && f !in Elements(names, k)
  {
    if f in names[k..] {
      var i :| 0 <= i < |names[k..]| && names[k..][i] == f;
      if f in Elements(names, k) {
        var j := WhereElement(names, k, f);
      }
    } else if f in names {
      var i :| 0 <= i < |names| && names[i] == f;
    }
  }

  lemma NewName(names: seq<Name>, files: set<Name>, name: Name)
    requires IsListing(names, files) && CheckForFilename(name) && Ascending(names + [name])
    ensures IsListing(names + [name], files + {name})
  {
    hide Less, CheckForFilename;
  }

  lemma NewestMore(taken: seq<Stamp>, t: Stamp, n: nat)
    requires n <= |taken|
    ensures Newest(taken + [t], n + 1) == Newest(taken, n) + [PictureName(t, |taken|)]
  {
    hide PictureName;
  }

  lemma NewestTail(taken: seq<Stamp>, n: nat, k: nat)
    requires k <= n <= |taken|
    ensures |Newest(taken, n)| == n && Newest(taken, n)[k..] == Newest(taken, n - k)
  {
    hide PictureName;
  }

  /** A clean-up leaves the end of the listing. */
  lemma CleanedUp(names: seq<Name>, was: set<Name>, now: set<Name>, size: nat)
    requires IsListing(names, was) && KeepsNewest(was, now, size)
    ensures IsListing(names[if |names| <= size then 0 else |names| - size..], now)
  {
    var k := if |names| <= size then 0 else |names| - size;
    DeletedFirst(names, was, k, size);
    KeepsNewestUnique(was, now, was - Elements(names, k), size);
    ListingTail(names, was, k);
  }

  /** A folder in which the run's last `k` pictures are the only ones. */
  ghost predicate HoldsNewest(taken: seq<Stamp>, k: nat, files: set<Name>) {
    k <= |taken| && IsListing(Newest(taken, k), files)
  }

  /** One picture more, and a clean-up if it is due. */
  lemma OneMore(taken: seq<Stamp>, t: Stamp, n: nat, was: set<Name>, now: set<Name>, size: int, cleanUp: bool)
    requires Timely(taken + [t]) && HoldsNewest(taken, n, was)
    requires if size < 0 || !cleanUp then now == was + {PictureName(t, |taken|)}
             else KeepsNewest(was + {PictureName(t, |taken|)}, now, size)
    ensures HoldsNewest(taken + [t], if 0 <= size < n + 1 && cleanUp then size else n + 1, now)
  {
    hide *;
    AllListed(taken, t, n, was);
    if size >= 0 && cleanUp {
      NewestKept(taken + [t], n + 1, was + {PictureName(t, |taken|)}, now, size);
    }
  }

  lemma NewestKept(taken: seq<Stamp>, n: nat, was: set<Name>, now: set<Name>, size: nat)
    requires HoldsNewest(taken, n, was) && KeepsNewest(was, now, size)
    ensures HoldsNewest(taken, if n <= size then n else size, now)
  {
    NewestTail(taken, n, if n <= size then 0 else n - size);
    hide IsListing, KeepsNewest, Newest;
    CleanedUp(Newest(taken, n), was, now, size);
  }

  lemma AllListed(taken: seq<Stamp>, t: Stamp, n: nat, files: set<Name>)
    requires Timely(taken + [t]) && HoldsNewest(taken, n, files)
    ensures HoldsNewest(taken + [t], n + 1, files + {PictureName(t, |taken|)})
  {
    WrittenNamesMatch(t, |taken|);
    NewestAscend(taken + [t], n + 1);
    NewestMore(taken, t, n);
    hide PictureName, IsListing, Newest, CheckForFilename, Ascending, Timely;
    NewName(Newest(taken, n), files, PictureName(t, |taken|));
  }

  // A clean-up of a run's own pictures, in whatever order their names are

  ghost predicate AreThePictures(names: seq<Name>, files: set<Name>) {
    forall f :: f in names <==> f in Pictures(files)
  }

  /** The names of a run are all different. */
  lemma NewestDistinct(taken: seq<Stamp>, n: nat)
    requires n <= |taken| && forall k :: 0 <= k < |taken| ==> taken[k].Valid()
    ensures Distinct(Newest(taken, n))
  {
    forall i, j | 0 <= i < j < n ensures Newest(taken, n)[i] != Newest(taken, n)[j] {
      NewestOrder(taken, n, i, j);
      NewestOrder(taken, n, j, i);
      SameTime(taken[|taken| - n + i], taken[|taken| - n + j]);
      hide Newest, Less, Earlier;
      LessIsOrder(Newest(taken, n)[i], Newest(taken, n)[j]);
    }
  }

  lemma RemoveNames(names: seq<Name>, was: set<Name>, k: nat)
    requires AreThePictures(names, was) && Distinct(names) && k <= |names|
    ensures Elements(names, k) <= Pictures(was) && AreThePictures(names[k..], was - Elements(names, k))
    ensures |Pictures(was)| == |names| && |Pictures(was - Elements(names, k))| == |names| - k
  {
    ElementsSize(names, |names|);
    ElementsSize(names, k);
    forall f ensures f in Elements(names, |names|) <==> f in Pictures(was) {
      if f in Elements(names, |names|) {
        var i := WhereElement(names, |names|, f);
      }
    }
    forall f | f in Elements(names, k) ensures f in Pictures(was) {
      var i := WhereElement(names, k, f);
      assert names[i] in names;
    }
    forall f ensures f in names[k..] <==> f in Pictures(was - Elements(names, k)) {
      TailElement(names, k, f);
    }
    hide Elements;
    assert Pictures(was) == Elements(names, |names|);
    assert Pictures(was - Elements(names, k)) == Pictures(was) - Elements(names, k);
  }

  /** Removed names come before kept ones. */
  ghost predicate SplitAt(names: seq<Name>, k: nat) {
    forall i, j :: 0 <= i < k <= j < |names| ==> Less(names[i], names[j])
  }

  lemma SplitKeepsNewest(names: seq<Name>, was: set<Name>, k: nat, size: nat)
    requires AreThePictures(names, was) && Distinct(names) && SplitAt(names, k)
    requires k == if |names| <= size then 0 else |names| - size
    ensures KeepsNewest(was, was - Elements(names, k), size)
  {
    RemoveNames(names, was, k);
    var gone := Elements(names, k);
    assert was - (was - gone) == gone;
    forall d, x | d in gone && x in Pictures(was - gone) ensures Less(d, x) {
      var i := WhereElement(names, k, d);
      assert x in names[k..];
      var j :| 0 <= j < |names[k..]| && names[k..][j] == x;
      assert Less(names[i], names[k + j]);
    }
    hide Elements, Less, AreThePictures, SplitAt;
  }

  lemma KeptTail(names: seq<Name>, was: set<Name>, now: set<Name>, k: nat, size: nat)
    requires AreThePictures(names, was) && Distinct(names) && KeepsNewest(was, now, size)
    requires k <= |names| && AreThePictures(names[k..], now)
    ensures SplitAt(names, k)
  {
    forall i, j | 0 <= i < k <= j < |names| ensures Less(names[i], names[j]) {
      assert names[k..][j - k] == names[j] && names[j] in names[k..];
      assert names[i] in names && names[i] !in names[k..];
    }
  }

  lemma TailIff(names: seq<Name>, was: set<Name>, now: set<Name>, k: nat, size: nat)
    requires AreThePictures(names, was) && Distinct(names) && KeepsNewest(was, now, size)
    requires k == if |names| <= size then 0 else |names| - size
    ensures AreThePictures(names[k..], now) <==> SplitAt(names, k)
  {
    hide *;
    if SplitAt(names, k) {
      SplitKeepsNewest(names, was, k, size);
      KeepsNewestUnique(was, now, was - Elements(names, k), size);
      RemoveNames(names, was, k);
    }
    if AreThePictures(names[k..], now) {
      KeptTail(names, was, now, k, size);
    }
  }

  /** The pictures from `first` up to `cut` are in order before those from `cut` on. */
  ghost predicate InOrderAcross(taken: seq<Stamp>, first: nat, cut: nat) {
    forall i, j :: first <= i < cut <= j < |taken| ==> InOrder(taken, i, j)
  }

  lemma SplitIff(taken: seq<Stamp>, n: nat, k: nat)
    requires k <= n <= |taken| && forall i :: 0 <= i < |taken| ==> taken[i].Valid()
    ensures SplitAt(Newest(taken, n), k) <==> InOrderAcross(taken, |taken| - n, |taken| - n + k)
  {
    var names, first := Newest(taken, n), |taken| - n;
    hide InOrder, Less, Newest;
    assert |names| == n;
    if SplitAt(names, k) {
      forall i, j | first <= i < first + k <= j < |taken| ensures InOrder(taken, i, j) {
        NewestOrder(taken, n, i - first, j - first);
        assert Less(names[i - first], names[j - first]);
      }
    }
    if InOrderAcross(taken, first, first + k) {
      forall i, j | 0 <= i < k <= j < n ensures Less(names[i], names[j]) {
        NewestOrder(taken, n, i, j);
        assert InOrder(taken, first + i, first + j);
      }
    }
  }

  /**
    A clean-up leaves the pictures taken last if and only if every picture that has to go is in
    order before every one that has to stay.
   */
  lemma CleanUpIff(taken: seq<Stamp>, n: nat, was: set<Name>, now: set<Name>, size: nat)
    requires n <= |taken| && forall k :: 0 <= k < |taken| ==> taken[k].Valid()
    requires AreThePictures(Newest(taken, n), was) && KeepsNewest(was, now, size)
    ensures var left := if n <= size then n else size;
      AreThePictures(Newest(taken, left), now) <==> InOrderAcross(taken, |taken| - n, |taken| - left)
  {
    hide *;
    var k := if n <= size then 0 else n - size;
    NewestDistinct(taken, n);
    NewestTail(taken, n, k);
    SplitIff(taken, n, k);
    TailIff(Newest(taken, n), was, now, k, size);
  }

  // Files that are no pictures

  /** Files without the shape of a picture's name are still there. */
  ghost predicate KeepsForeign(was: set<Name>, now: set<Name>) {
    forall f :: f in was && !IsShaped(f) ==> f in now
  }

  /** A clean-up takes away files of that shape only. */
  lemma CleanUpSparesForeign(was: set<Name>, now: set<Name>, size: nat)
    requires KeepsNewest(was, now, size)
    ensures KeepsForeign(was, now)
  {
    hide IsShaped, CheckForFilename, Less;
    forall f | f in was && !IsShaped(f) ensures f in now {
      if f !in now {
        assert f in was - now;
        assert f in Pictures(was);
        RecognisedIff(f);
      }
    }
  }

  lemma ForeignStep(start: set<Name>, was: set<Name>, now: set<Name>, name: Name, size: int, cleanUp: bool)
    requires KeepsForeign(start, was)
    requires if size < 0 || !cleanUp then now == was + {name} else KeepsNewest(was + {name}, now, size)
    ensures KeepsForeign(start, now)
  {
    if size >= 0 && cleanUp {
      CleanUpSparesForeign(was + {name}, now, size);
    }
    hide IsShaped, KeepsNewest;
  }

  /** The folder and the worker's counter. */
  class Recorder {
    const size: int
    const exceed: int
    var files: set<Name>
    var counter: nat
    /** When the pictures of this run were taken. */
    ghost var taken: seq<Stamp>

    constructor (size: int, exceed: int, files: set<Name>)
      ensures this.size == size && this.exceed == exceed && this.files == files && counter == 0 && taken == []
    {
      this.size := size;
      this.exceed := exceed;
      this.files := files;
      counter := 0;
      taken := [];
    }

    /** `namelist` is what scandir returns. */
    method MaintainRingbuffer(size: int, namelist: seq<Name>)
      requires IsListing(namelist, files)
      modifies this`files
      ensures if size < 0 then files == old(files) else KeepsNewest(old(files), files, size)
      ensures KeepsForeign(old(files), files)
    {
      if size < 0 {
        return;
      }
      var n, i := |namelist|, 0;
      while i < n - size
        invariant 0 <= i <= n && (i > 0 ==> i <= n - size)
        invariant files == old(files) - Elements(namelist, i)
      {
        files := files - {namelist[i]};
        i := i + 1;
      }
      DeletedFirst(namelist, old(files), i, size);
      CleanUpSparesForeign(old(files), files, size);
      hide KeepsNewest, KeepsForeign;
    }

    /** Lines 246-325: one picture, at local time `t`. */
    method StorePicture(t: Stamp, scandir: set<Name> -> seq<Name>)
      requires forall s: set<Name> :: IsListing(scandir(s), s)
      requires counter == |taken|
      modifies this`files, this`counter, this`taken
      ensures counter == old(counter) + 1 == |taken| && taken == old(taken) + [t]
      ensures var all := old(files) + {PictureName(t, old(counter))};
        if size < 0 || !CleansUp(counter, exceed) then files == all else KeepsNewest(all, files, size)
    {
      var name := PictureName(t, counter);
      counter := counter + 1;
      taken := taken + [t];
      files := files + {name};
      if exceed <= 0 {
        MaintainRingbuffer(size, scandir(files));
      } else if counter == 1 || counter % (exceed + 1) == 0 {
        MaintainRingbuffer(size, scandir(files));
      }
    }

    /** The loop. */
    method WorkerThread(times: seq<Stamp>, scandir: set<Name> -> seq<Name>)
      requires forall s: set<Name> :: IsListing(scandir(s), s)
      requires counter == 0 && taken == []
      modifies this`files, this`counter, this`taken
      ensures taken == times && Bounded(files, size, exceed, counter) && KeepsForeign(old(files), files)
      ensures Timely(times) && old(Pictures(files)) == {} ==> HoldsNewest(times, Kept(|times|, size, exceed), files)
    {
      var i := 0;
      ghost var timely := Timely(times) && Pictures(files) == {};
      assert RunState(times, 0, files, size, exceed, timely);
      assert times[..0] == [] && KeepsForeign(files, files);
      hide *;
      while i < |times|
        invariant i == counter == |taken| <= |times| && taken == times[..i]
        invariant RunState(times, i, files, size, exceed, timely) && KeepsForeign(old(files), files)
      {
        ghost var was := files;
        StorePicture(times[i], scandir);
        RunStep(times, i, was, files, size, exceed, timely);
        ForeignStep(old(files), was, files, PictureName(times[i], i), size, CleansUp(i + 1, exceed));
        assert times[..i + 1] == times[..i] + [times[i]];
        i := i + 1;
      }
      RunEnd(times, files, size, exceed, timely);
    }
  }

  /** What holds after `n` iterations; `timely` if the run is and the folder was empty. */
  ghost predicate RunState(times: seq<Stamp>, n: nat, files: set<Name>, size: int, exceed: int, timely: bool) {
    && n <= |times| && Bounded(files, size, exceed, n)
    && (timely ==> Timely(times) && HoldsNewest(times[..n], Kept(n, size, exceed), files))
  }

  lemma RunStep(times: seq<Stamp>, n: nat, was: set<Name>, now: set<Name>, size: int, exceed: int, timely: bool)
    requires n < |times| && RunState(times, n, was, size, exceed, timely)
    requires if size < 0 || !CleansUp(n + 1, exceed) then now == was + {PictureName(times[n], n)}
             else KeepsNewest(was + {PictureName(times[n], n)}, now, size)
    ensures RunState(times, n + 1, now, size, exceed, timely)
  {
    hide PictureName, Timely, HoldsNewest, Bounded, KeepsNewest, CleansUp;
    BoundedStep(was, now, PictureName(times[n], n), size, exceed, n + 1);
    assert times[..n + 1] == times[..n] + [times[n]];
    if timely {
      TimelyPrefix(times, n + 1);
      OneMore(times[..n], times[n], Kept(n, size, exceed), was, now, size, CleansUp(n + 1, exceed));
    }
  }

  lemma RunEnd(times: seq<Stamp>, files: set<Name>, size: int, exceed: int, timely: bool)
    requires RunState(times, |times|, files, size, exceed, timely)
    ensures Bounded(files, size, exceed, |times|)
    ensures timely ==> HoldsNewest(times, Kept(|times|, size, exceed), files)
    ensures times[..|times|] == times
  {
    assert times[..|times|] == times;
  }

  /** At the end of an iteration, whatever else is in the folder, the pictures are not too many. */
  ghost predicate Bounded(files: set<Name>, size: int, exceed: int, counter: nat) {
    size >= 0 && counter > 0 ==> |Pictures(files)| <= size + Slack(counter, exceed)
  }

  lemma TimelyPrefix(times: seq<Stamp>, n: nat)
    requires Timely(times) && n <= |times|
    ensures Timely(times[..n])
  {
    forall i, j | 0 <= i < j < n ensures InOrder(times[..n], i, j) {
      assert InOrder(times, i, j);
    }
  }

  /** So there are never more than `size + exceed` of them. */
  lemma NeverTooMany(files: set<Name>, size: int, exceed: int, counter: nat)
    requires Bounded(files, size, exceed, counter) && size >= 0 && counter > 0
    ensures |Pictures(files)| <= size + if exceed > 0 then exceed else 0
  {
    if exceed > 0 {
      assert counter % (exceed + 1) <= exceed;
    }
  }

  lemma BoundedStep(was: set<Name>, now: set<Name>, name: Name, size: int, exceed: int, counter: nat)
    requires counter > 0 && Bounded(was, size, exceed, counter - 1)
    requires if size < 0 || !CleansUp(counter, exceed) then now == was + {name} else KeepsNewest(was + {name}, now, size)
    ensures Bounded(now, size, exceed, counter)
  {
    if !CleansUp(counter, exceed) {
      SlackGrows(counter, exceed);
      assert Pictures(now) <= Pictures(was) + {name};
      SetMonotone(Pictures(now), Pictures(was) + {name});
    }
  }

  lemma SetMonotone(a: set<Name>, b: set<Name>)
    requires a <= b
    ensures |a| <= |b|
  {
    assert b == a + (b - a);
  }
}
