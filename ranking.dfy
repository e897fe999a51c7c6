/**
 * Ordering a repository's images newest first, as `repos` (src/main.rs) does
 * with `images.sort_by(..)`: the key is the push time in whole seconds, a
 * missing push time counting as 0, compared in reverse; `sort_by` is stable.
 */
module Ranking {
  import opened Wrappers

  /** The image metadata the report reads: push time (seconds) and size (bytes). */
  datatype ImageDetail = ImageDetail(imagePushedAt: Option<int>, imageSizeInBytes: Option<int>)

  /** The sort key: push time, or the epoch (0) when absent. */
  function PushedAt(img: ImageDetail): int {
    img.imagePushedAt.GetOr(0)
  }

  /** Non-increasing push times from left to right. */
  ghost predicate NewestFirstOrder(s: seq<ImageDetail>) {
    forall i, j :: 0 <= i < j < |s| ==> PushedAt(s[i]) >= PushedAt(s[j])
  }

  /** The images of `s` pushed at time `t`, in their order in `s`. */
  ghost function PushedAtTime(s: seq<ImageDetail>, t: int): seq<ImageDetail> {
    if s == [] then []
    else PushedAtTime(s[..|s| - 1], t) + (if PushedAt(s[|s| - 1]) == t then [s[|s| - 1]] else [])
  }

  /** A stable reordering keeps, for every push time, the images of that time in their original order. */
  ghost predicate StableFor(original: seq<ImageDetail>, sorted: seq<ImageDetail>) {
    forall t :: PushedAtTime(sorted, t) == PushedAtTime(original, t)
  }

  /**
   * `x` placed into `s` just after the last image pushed no earlier than `x`,
   * looking from the right, as one step of insertion sort does.
   */
  ghost function Insert(x: ImageDetail, s: seq<ImageDetail>): seq<ImageDetail>
    decreases |s|
  {
    if s == [] then [x]
    else if PushedAt(s[|s| - 1]) < PushedAt(x) then Insert(x, s[..|s| - 1]) + [s[|s| - 1]]
    else s + [x]
  }

  /** The images ordered newest first, ties in their original order. */
  ghost function NewestFirst(s: seq<ImageDetail>): seq<ImageDetail>
    decreases |s|
  {
    if s == [] then [] else Insert(s[|s| - 1], NewestFirst(s[..|s| - 1]))
  }

  lemma {:induction false} InsertMultiset(x: ImageDetail, s: seq<ImageDetail>)
    ensures |Insert(x, s)| == |s| + 1
    ensures multiset(Insert(x, s)) == multiset(s) + multiset{x}
    decreases |s|
  {
    if s != [] && PushedAt(s[|s| - 1]) < PushedAt(x) {
      InsertMultiset(x, s[..|s| - 1]);
      assert s == s[..|s| - 1] + [s[|s| - 1]];
    }
  }

  /** A non-empty sequence's multiset splits off its last element. */
  lemma MultisetOfSnoc(s: seq<ImageDetail>)
    requires s != []
    ensures multiset(s) == multiset(s[..|s| - 1]) + multiset{s[|s| - 1]}
  {
    assert s == s[..|s| - 1] + [s[|s| - 1]];
  }

  lemma {:induction false} InsertOrdered(x: ImageDetail, s: seq<ImageDetail>)
    requires NewestFirstOrder(s)
    ensures NewestFirstOrder(Insert(x, s))
    decreases |s|
  {
    if s != [] && PushedAt(s[|s| - 1]) < PushedAt(x) {
      var init, last := s[..|s| - 1], s[|s| - 1];
      InsertOrdered(x, init);
      InsertMultiset(x, init);
      var r := Insert(x, init);
      forall i | 0 <= i < |r| ensures PushedAt(r[i]) >= PushedAt(last) {
        assert r[i] in multiset(init) + multiset{x};
        if r[i] != x {
          assert r[i] in init;
          var k :| 0 <= k < |init| && init[k] == r[i];
          assert s[k] == r[i];
        }
      }
    }
  }

  /** Appending one image extends the images of its push time, and no others. */
  lemma PushedAtTimeSnoc(s: seq<ImageDetail>, y: ImageDetail, t: int)
    ensures PushedAtTime(s + [y], t) == PushedAtTime(s, t) + (if PushedAt(y) == t then [y] else [])
  {
    assert (s + [y])[..|s|] == s;
  }

  lemma {:induction false} InsertStable(x: ImageDetail, s: seq<ImageDetail>, t: int)
    ensures PushedAtTime(Insert(x, s), t) == PushedAtTime(s, t) + (if PushedAt(x) == t then [x] else [])
    decreases |s|
  {
    if s == [] {
      PushedAtTimeSnoc([], x, t);
      assert [] + [x] == [x];
    } else {
      var init, last := s[..|s| - 1], s[|s| - 1];
      assert s == init + [last];
      PushedAtTimeSnoc(init, last, t);
      if PushedAt(last) < PushedAt(x) {
        InsertStable(x, init, t);
        PushedAtTimeSnoc(Insert(x, init), last, t);
      } else {
        PushedAtTimeSnoc(s, x, t);
      }
    }
  }

  /** The newest-first order is a permutation of its input. */
  lemma {:induction false} NewestFirstPermutation(s: seq<ImageDetail>)
    ensures |NewestFirst(s)| == |s|
    ensures multiset(NewestFirst(s)) == multiset(s)
    decreases |s|
  {
    if s != [] {
      var init, last := s[..|s| - 1], s[|s| - 1];
      var sorted := NewestFirst(init);
      assert NewestFirst(s) == Insert(last, sorted);
      NewestFirstPermutation(init);
      InsertMultiset(last, sorted);
      MultisetOfSnoc(s);
    }
  }

  /** The newest-first order is non-increasing in push time. */
  lemma {:induction false} NewestFirstOrdered(s: seq<ImageDetail>)
    ensures NewestFirstOrder(NewestFirst(s))
    decreases |s|
  {
    if s != [] {
      NewestFirstOrdered(s[..|s| - 1]);
      InsertOrdered(s[|s| - 1], NewestFirst(s[..|s| - 1]));
    }
  }

  /** The newest-first order is stable: images pushed at the same time keep their relative order. */
  lemma {:induction false} NewestFirstStable(s: seq<ImageDetail>)
    ensures StableFor(s, NewestFirst(s))
    decreases |s|
  {
    if s != [] {
      NewestFirstStable(s[..|s| - 1]);
      forall t ensures PushedAtTime(NewestFirst(s), t) == PushedAtTime(s, t) {
        InsertStable(s[|s| - 1], NewestFirst(s[..|s| - 1]), t);
      }
    }
  }

  lemma {:induction false} PushedAtTimeMember(s: seq<ImageDetail>, t: int, x: ImageDetail)
    requires x in PushedAtTime(s, t)
    ensures x in s && PushedAt(x) == t
    decreases |s|
  {
    var init := s[..|s| - 1];
    if x in PushedAtTime(init, t) {
      PushedAtTimeMember(init, t, x);
      assert init[..] <= s;
    }
  }

  lemma {:induction false} PushedAtTimeAbsent(s: seq<ImageDetail>, t: int)
    requires forall j :: 0 <= j < |s| ==> PushedAt(s[j]) != t
    ensures PushedAtTime(s, t) == []
    decreases |s|
  {
    if s != [] {
      PushedAtTimeAbsent(s[..|s| - 1], t);
    }
  }

  /** The first image of `s` pushed at `t` heads the images of that time. */
  lemma {:induction false} PushedAtTimeHead(s: seq<ImageDetail>, i: nat, t: int)
    requires i < |s| && PushedAt(s[i]) == t
    requires forall j :: 0 <= j < i ==> PushedAt(s[j]) != t
    ensures PushedAtTime(s, t) != [] && PushedAtTime(s, t)[0] == s[i]
    decreases |s|
  {
    var init := s[..|s| - 1];
    if i == |s| - 1 {
      PushedAtTimeAbsent(init, t);
    } else {
      PushedAtTimeHead(init, i, t);
    }
  }

  lemma LastPushTimeListed(s: seq<ImageDetail>)
    requires s != []
    ensures PushedAtTime(s, PushedAt(s[|s| - 1])) != []
  {
  }

  /** In a newest-first ordering, every image is pushed no earlier than the last one. */
  lemma NoneOlderThanLast(r: seq<ImageDetail>, x: ImageDetail)
    requires r != [] && NewestFirstOrder(r) && x in r
    ensures PushedAt(x) >= PushedAt(r[|r| - 1])
  {
    var k :| 0 <= k < |r| && r[k] == x;
    if k < |r| - 1 {
      assert PushedAt(r[k]) >= PushedAt(r[|r| - 1]);
    }
  }

  /** If two sequences agree on the images pushed when `r1`'s last image was, that image is in `r2`. */
  lemma LastListedIn(r1: seq<ImageDetail>, r2: seq<ImageDetail>)
    requires r1 != []
    requires PushedAtTime(r1, PushedAt(r1[|r1| - 1])) == PushedAtTime(r2, PushedAt(r1[|r1| - 1]))
    ensures r1[|r1| - 1] in r2
  {
    var init, a := r1[..|r1| - 1], r1[|r1| - 1];
    assert r1 == init + [a];
    PushedAtTimeSnoc(init, a, PushedAt(a));
    PushedAtTimeMember(r2, PushedAt(a), a);
  }

  /** Two sequences whose last images share a push time, and that agree on the images of that time, end alike. */
  lemma SameLastOfTime(r1: seq<ImageDetail>, r2: seq<ImageDetail>)
    requires r1 != [] && r2 != []
    requires PushedAt(r1[|r1| - 1]) == PushedAt(r2[|r2| - 1])
    requires PushedAtTime(r1, PushedAt(r1[|r1| - 1])) == PushedAtTime(r2, PushedAt(r1[|r1| - 1]))
    ensures r1[|r1| - 1] == r2[|r2| - 1]
  {
    var t := PushedAt(r1[|r1| - 1]);
    var p1 := PushedAtTime(r1[..|r1| - 1], t) + [r1[|r1| - 1]];
    var p2 := PushedAtTime(r2[..|r2| - 1], t) + [r2[|r2| - 1]];
    assert p1 == PushedAtTime(r1, t) == PushedAtTime(r2, t) == p2;
    assert p1[|p1| - 1] == r1[|r1| - 1] && p2[|p2| - 1] == r2[|r2| - 1];
  }

  /** Two newest-first orderings that agree on the images of every push time end with the same image. */
  lemma SameLast(r1: seq<ImageDetail>, r2: seq<ImageDetail>)
    requires r1 != [] && r2 != []
    requires NewestFirstOrder(r1) && NewestFirstOrder(r2)
    requires forall t :: PushedAtTime(r1, t) == PushedAtTime(r2, t)
    ensures r1[|r1| - 1] == r2[|r2| - 1]
  {
    var a, b := r1[|r1| - 1], r2[|r2| - 1];
    assert PushedAtTime(r1, PushedAt(a)) == PushedAtTime(r2, PushedAt(a));
    assert PushedAtTime(r2, PushedAt(b)) == PushedAtTime(r1, PushedAt(b));
    LastListedIn(r1, r2);
    LastListedIn(r2, r1);
    NoneOlderThanLast(r2, a);
    NoneOlderThanLast(r1, b);
    SameLastOfTime(r1, r2);
  }

  lemma OrderedInit(r: seq<ImageDetail>)
    requires r != [] && NewestFirstOrder(r)
    ensures NewestFirstOrder(r[..|r| - 1])
  {
  }

  /** Dropping the same last image from both keeps them agreeing on every push time. */
  lemma SameInit(r1: seq<ImageDetail>, r2: seq<ImageDetail>, t: int)
    requires r1 != [] && r2 != [] && r1[|r1| - 1] == r2[|r2| - 1]
    requires PushedAtTime(r1, t) == PushedAtTime(r2, t)
    ensures PushedAtTime(r1[..|r1| - 1], t) == PushedAtTime(r2[..|r2| - 1], t)
  {
    var a := r1[|r1| - 1];
    var x1, x2 := PushedAtTime(r1[..|r1| - 1], t), PushedAtTime(r2[..|r2| - 1], t);
    var tail := if PushedAt(a) == t then [a] else [];
    assert PushedAtTime(r1, t) == x1 + tail;
    assert PushedAtTime(r2, t) == x2 + tail;
    assert x1 == (x1 + tail)[..|x1|];
    assert x2 == (x2 + tail)[..|x2|];
  }

  /**
   * A stable newest-first order is unique: two orderings that are both
   * non-increasing in push time and agree on the images of every push time
   * are the same sequence.
   */
  lemma {:induction false} OrderedStableUnique(r1: seq<ImageDetail>, r2: seq<ImageDetail>)
    requires NewestFirstOrder(r1) && NewestFirstOrder(r2)
    requires forall t :: PushedAtTime(r1, t) == PushedAtTime(r2, t)
    ensures r1 == r2
    decreases |r1| + |r2|
  {
    if r1 == [] && r2 != [] {
      LastPushTimeListed(r2);
      assert false;
    } else if r1 != [] && r2 == [] {
      LastPushTimeListed(r1);
      assert false;
    } else if r1 != [] {
      var init1, init2 := r1[..|r1| - 1], r2[..|r2| - 1];
      SameLast(r1, r2);
      forall t ensures PushedAtTime(init1, t) == PushedAtTime(init2, t) {
        SameInit(r1, r2, t);
      }
      OrderedInit(r1);
      OrderedInit(r2);
      OrderedStableUnique(init1, init2);
      assert r1 == init1 + [r1[|r1| - 1]] && r2 == init2 + [r2[|r2| - 1]];
    }
}

  /**
   * Any stable sort by push time, newest first, produces `NewestFirst(s)`:
   * which stable algorithm does the sorting cannot matter.
   */
  lemma StableSortIsNewestFirst(s: seq<ImageDetail>, r: seq<ImageDetail>)
    requires NewestFirstOrder(r) && StableFor(s, r)
    ensures r == NewestFirst(s)
  {
    NewestFirstOrdered(s);
    NewestFirstStable(s);
    OrderedStableUnique(r, NewestFirst(s));
  }

  /** `s[i]` has the greatest push time of `s` and no earlier image has that time. */
  ghost predicate IsFirstNewest(s: seq<ImageDetail>, i: int) {
    && 0 <= i < |s|
    && (forall j :: 0 <= j < |s| ==> PushedAt(s[j]) <= PushedAt(s[i]))
    && (forall j :: 0 <= j < i ==> PushedAt(s[j]) < PushedAt(s[i]))
  }

  /** The position of the earliest-listed image among those pushed last. */
  function FirstNewest(s: seq<ImageDetail>): (i: nat)
    requires s != []
    ensures IsFirstNewest(s, i)
  {
    if |s| == 1 then 0
    else
      var j := FirstNewest(s[1..]);
      if PushedAt(s[0]) >= PushedAt(s[1 + j]) then 0 else 1 + j
  }

  /** After the stable sort, the first image is the earliest-listed one among those pushed last. */
  lemma NewestFirstHead(s: seq<ImageDetail>, i: nat)
    requires IsFirstNewest(s, i)
    ensures |NewestFirst(s)| == |s| && NewestFirst(s)[0] == s[i]
  {
    var r := NewestFirst(s);
    var t := PushedAt(s[i]);
    NewestFirstPermutation(s);
    NewestFirstOrdered(s);
    NewestFirstStable(s);
    assert PushedAt(r[0]) == t by {
      assert s[i] in multiset(r);
      var m :| 0 <= m < |r| && r[m] == s[i];
      assert r[0] in multiset(s);
      var k :| 0 <= k < |s| && s[k] == r[0];
    }
    PushedAtTimeHead(r, 0, t);
    PushedAtTimeHead(s, i, t);
    assert PushedAtTime(r, t) == PushedAtTime(s, t);
  }

  /** Inserting `x` passes over a suffix of images all pushed before `x`. */
  lemma {:induction false} InsertPastOlder(x: ImageDetail, p: seq<ImageDetail>, j: nat)
    requires j <= |p|
    requires forall k :: j <= k < |p| ==> PushedAt(p[k]) < PushedAt(x)
    ensures Insert(x, p) == Insert(x, p[..j]) + p[j..]
    decreases |p| - j
  {
    if j < |p| {
      var init := p[..|p| - 1];
      InsertPastOlder(x, init, j);
      assert init[..j] == p[..j];
      assert p[j..] == init[j..] + [p[|p| - 1]];
    } else {
      assert p[..j] == p;
    }
  }

  /** `x` written at `j`, with the images of `p` from `j` on shifted one place right, is `Insert(x, p)`. */
  lemma ShiftedIsInsert(x: ImageDetail, p: seq<ImageDetail>, j: nat, shifted: seq<ImageDetail>)
    requires j <= |p| && |shifted| == |p| + 1
    requires forall k :: 0 <= k < j ==> shifted[k] == p[k]
    requires shifted[j] == x
    requires forall k :: j < k <= |p| ==> shifted[k] == p[k - 1]
    requires forall k :: j <= k < |p| ==> PushedAt(p[k]) < PushedAt(x)
    requires j == 0 || PushedAt(p[j - 1]) >= PushedAt(x)
    ensures shifted == Insert(x, p)
  {
    InsertPastOlder(x, p, j);
    assert Insert(x, p[..j]) == p[..j] + [x];
    assert shifted == p[..j] + [x] + p[j..];
  }

  /** Moves `a[i]` left past the images pushed before it, into the newest-first prefix `a[..i]`. */
  method InsertIntoPrefix(a: array<ImageDetail>, i: nat)
    requires i < a.Length
    modifies a
    ensures a[..i + 1] == Insert(old(a[i]), old(a[..i]))
    ensures forall k :: i < k < a.Length ==> a[k] == old(a[k])
  {
    ghost var original := a[..];
    var x := a[i];
    ghost var p := a[..i];
    var j := i;
    while j > 0 && PushedAt(a[j - 1]) < PushedAt(x)
      invariant 0 <= j <= i
      invariant forall k :: 0 <= k < j ==> a[k] == p[k]
      invariant forall k :: j < k <= i ==> a[k] == p[k - 1]
      invariant forall k :: i < k < a.Length ==> a[k] == original[k]
      invariant forall k :: j <= k < i ==> PushedAt(p[k]) < PushedAt(x)
    {
      a[j] := a[j - 1];
      j := j - 1;
    }
    a[j] := x;
    ShiftedIsInsert(x, p, j, a[..i + 1]);
  }

  /**
   * Sorts the images in place, newest first, keeping images pushed at the
   * same time in their original order (insertion sort).
   */
  method SortNewestFirst(a: array<ImageDetail>)
    modifies a
    ensures a[..] == NewestFirst(old(a[..]))
  {
    ghost var original := a[..];
    var i := 0;
    while i < a.Length
      invariant 0 <= i <= a.Length
      invariant a[..i] == NewestFirst(original[..i])
      invariant forall k :: i <= k < a.Length ==> a[k] == original[k]
    {
      InsertIntoPrefix(a, i);
      assert original[..i + 1][..i] == original[..i];
      i := i + 1;
    }
    assert original[..a.Length] == original;
  }
}
