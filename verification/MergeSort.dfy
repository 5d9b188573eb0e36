/** Merge sort on a range of an array: the function it computes, and the sequential program. */
module MergeSort {

  import opened Common

  /** Takes from the left only what is strictly smaller. */
  function Merge(l: seq<int>, r: seq<int>): (s: seq<int>)
    ensures |s| == |l| + |r|
  {
    if l == [] then r
    else if r == [] then l
    else if l[0] < r[0] then [l[0]] + Merge(l[1..], r)
    else [r[0]] + Merge(l, r[1..])
  }

  function MergeSorted(s: seq<int>): (t: seq<int>)
    ensures |t| == |s|
    decreases |s|
  {
    if |s| <= 1 then s else Merge(MergeSorted(s[..|s| / 2]), MergeSorted(s[|s| / 2..]))
  }

  lemma {:induction false} MergePermutes(l: seq<int>, r: seq<int>)
    ensures multiset(Merge(l, r)) == multiset(l) + multiset(r)
  {
    if l != [] && r != [] {
      if l[0] < r[0] {
        MergePermutes(l[1..], r);
        FirstCounts(l);
      } else {
        MergePermutes(l, r[1..]);
        FirstCounts(r);
      }
    }
  }

  lemma FirstCounts(s: seq<int>)
    requires s != []
    ensures multiset(s) == multiset{s[0]} + multiset(s[1..])
  {
    assert s == [s[0]] + s[1..];
  }

  lemma MergeBound(x: int, l: seq<int>, r: seq<int>)
    requires (forall i :: 0 <= i < |l| ==> x <= l[i]) && forall i :: 0 <= i < |r| ==> x <= r[i]
    ensures forall i :: 0 <= i < |Merge(l, r)| ==> x <= Merge(l, r)[i]
  {
  }

  lemma {:induction false} MergeSorts(l: seq<int>, r: seq<int>)
    requires Sorted(l) && Sorted(r)
    ensures Sorted(Merge(l, r))
  {
    if l != [] && r != [] {
      if l[0] < r[0] {
        MergeSorts(l[1..], r);
        MergeBound(l[0], l[1..], r);
      } else {
        MergeSorts(l, r[1..]);
        MergeBound(r[0], l, r[1..]);
      }
    }
  }

  lemma HalvesCount(s: seq<int>, h: nat)
    requires h <= |s|
    ensures multiset(s) == multiset(s[..h]) + multiset(s[h..])
  {
    assert s == s[..h] + s[h..];
  }

  /** The result is sorted and a permutation of the input. */
  lemma {:induction false} MergeSortedSorts(s: seq<int>)
    ensures Sorted(MergeSorted(s)) && multiset(MergeSorted(s)) == multiset(s)
    decreases |s|
  {
    if |s| > 1 {
      var h := |s| / 2;
      var a, b := MergeSorted(s[..h]), MergeSorted(s[h..]);
      MergeSortedSorts(s[..h]);
      MergeSortedSorts(s[h..]);
      MergeSorts(a, b);
      MergePermutes(a, b);
      HalvesCount(s, h);
      assert MergeSorted(s) == Merge(a, b);
    }
  }

  /** The left element is next when it is strictly smaller, or when nothing is left on the right. */
  lemma TakeLeft(s: seq<int>, done: seq<int>, i: nat, mid: nat, j: nat, hi: nat)
    requires i < mid <= j <= hi <= |s| && (j == hi || s[i] < s[j])
    ensures (done + [s[i]]) + Merge(s[i + 1..mid], s[j..hi]) == done + Merge(s[i..mid], s[j..hi])
  {
  }

  lemma TakeRight(s: seq<int>, done: seq<int>, i: nat, mid: nat, j: nat, hi: nat)
    requires i <= mid <= j < hi <= |s| && (i == mid || s[i] >= s[j])
    ensures (done + [s[j]]) + Merge(s[i..mid], s[j + 1..hi]) == done + Merge(s[i..mid], s[j..hi])
  {
  }

  /** Writes one element and keeps those before it. */
  method Put(tmp: array<int>, cur: nat, x: int)
    requires cur < tmp.Length
    modifies tmp
    ensures tmp[..cur + 1] == old(tmp[..cur]) + [x]
  {
    tmp[cur] := x;
  }

  /** What merging the two halves of a range gives. */
  function Halves(s: seq<int>, lo: nat, mid: nat, hi: nat): (t: seq<int>)
    requires lo <= mid <= hi <= |s|
    ensures |t| == hi - lo
  {
    Merge(s[lo..mid], s[mid..hi])
  }

  /** `done` is what merging has produced when it has come to `i` on the left and to `j` on the right. */
  ghost predicate Partial(s: seq<int>, lo: nat, mid: nat, hi: nat, i: nat, j: nat, done: seq<int>) {
    lo <= i <= mid <= j <= hi <= |s| && |done| == i - lo + j - mid &&
    done + Merge(s[i..mid], s[j..hi]) == Halves(s, lo, mid, hi)
  }

  lemma PartialStarts(s: seq<int>, lo: nat, mid: nat, hi: nat)
    requires lo <= mid <= hi <= |s|
    ensures Partial(s, lo, mid, hi, lo, mid, [])
  {
  }

  lemma PartialEnds(s: seq<int>, lo: nat, mid: nat, hi: nat, done: seq<int>)
    requires Partial(s, lo, mid, hi, mid, hi, done)
    ensures done == Halves(s, lo, mid, hi)
  {
  }

  /** The comparison that the program makes picks the next element. */
  lemma PartialGrows(s: seq<int>, lo: nat, mid: nat, hi: nat, i: nat, j: nat, done: seq<int>)
    requires Partial(s, lo, mid, hi, i, j, done) && (i < mid || j < hi)
    ensures if i < mid && (j == hi || s[i] < s[j])
            then Partial(s, lo, mid, hi, i + 1, j, done + [s[i]])
            else Partial(s, lo, mid, hi, i, j + 1, done + [s[j]])
  {
  }

  /** One round of the merging loop. */
  method TakeNext(a: array<int>, tmp: array<int>, lo: nat, mid: nat, hi: nat, i: nat, j: nat, cur: nat, ghost done: seq<int>)
    returns (i': nat, j': nat, ghost done': seq<int>)
    requires a != tmp && hi <= a.Length && Partial(a[..], lo, mid, hi, i, j, done) && (i != mid || j != hi)
    requires cur < tmp.Length && done == tmp[..cur]
    modifies tmp
    ensures Partial(a[..], lo, mid, hi, i', j', done') && i' + j' == i + j + 1 && done' == tmp[..cur + 1]
  {
    ghost var s := a[..];
    PartialGrows(s, lo, mid, hi, i, j, done);
    i', j' := i, j;
    if i == mid {
      done' := done + [s[j]];
      Put(tmp, cur, a[j]);
      j' := j + 1;
    } else if j == hi || a[i] < a[j] {
      done' := done + [s[i]];
      Put(tmp, cur, a[i]);
      i' := i + 1;
    } else {
      done' := done + [s[j]];
      Put(tmp, cur, a[j]);
      j' := j + 1;
    }
    assert a[..] == s;
  }

  /** Merges the two sorted halves of the range into a new array. */
  method MergeHalves(a: array<int>, lo: nat, mid: nat, hi: nat) returns (tmp: array<int>)
    requires lo <= mid <= hi <= a.Length
    ensures fresh(tmp) && tmp[..] == Halves(a[..], lo, mid, hi)
  {
    tmp := new int[hi - lo];
    var startLeft: nat, startRight: nat, cur: nat := lo, mid, 0;
    ghost var s := a[..];
    ghost var done := [];
    PartialStarts(s, lo, mid, hi);
    while startLeft != mid || startRight != hi
      invariant a[..] == s && cur <= tmp.Length && done == tmp[..cur]
      invariant Partial(s, lo, mid, hi, startLeft, startRight, done)
      decreases hi - startRight + mid - startLeft
    {
      startLeft, startRight, done := TakeNext(a, tmp, lo, mid, hi, startLeft, startRight, cur, done);
      cur := cur + 1;
    }
    PartialEnds(s, lo, mid, hi, done);
    assert tmp[..cur] == tmp[..];
  }

  /** Copies the merged elements back over the range. */
  method CopyBack(a: array<int>, lo: nat, tmp: array<int>)
    requires lo + tmp.Length <= a.Length && a != tmp
    modifies a
    ensures a[..] == old(a[..lo]) + tmp[..] + old(a[lo + tmp.Length..])
  {
    for i := 0 to tmp.Length
      invariant forall k :: 0 <= k < a.Length && !(lo <= k < lo + i) ==> a[k] == old(a[k])
      invariant forall k :: 0 <= k < i ==> a[lo + k] == tmp[k]
    {
      a[lo + i] := tmp[i];
    }
    assert a[lo..lo + tmp.Length] == tmp[..];
    assert a[..lo] == old(a[..lo]) && a[lo + tmp.Length..] == old(a[lo + tmp.Length..]);
  }

  /** The array after the elements from `lo` up to `hi` have been sorted. */
  function SortedWithin(s: seq<int>, lo: nat, hi: nat): (t: seq<int>)
    requires lo <= hi <= |s|
    ensures |t| == |s|
  {
    s[..lo] + MergeSorted(s[lo..hi]) + s[hi..]
  }

  lemma PartsOf(s: seq<int>, lo: nat, hi: nat)
    requires lo <= hi <= |s|
    ensures var t := SortedWithin(s, lo, hi);
            t[..lo] == s[..lo] && t[hi..] == s[hi..] && t[lo..hi] == MergeSorted(s[lo..hi])
  {
    Thirds(s[..lo], MergeSorted(s[lo..hi]), s[hi..]);
  }

  lemma Thirds(a: seq<int>, b: seq<int>, c: seq<int>)
    ensures var t := a + b + c;
            t[..|a|] == a && t[|a|..|a| + |b|] == b && t[|a| + |b|..] == c
  {
  }

  lemma HalvesOf(s: seq<int>, lo: nat, mid: nat, hi: nat)
    requires lo <= mid <= hi <= |s|
    ensures s[lo..hi][..mid - lo] == s[lo..mid] && s[lo..hi][mid - lo..] == s[mid..hi]
  {
  }

  lemma Later(s: seq<int>, t: seq<int>, at: nat, from: nat, to: nat)
    requires at <= from <= to <= |s| == |t| && s[at..] == t[at..]
    ensures s[from..to] == t[from..to]
  {
  }

  lemma Earlier(s: seq<int>, t: seq<int>, at: nat, from: nat, to: nat)
    requires from <= to <= at <= |s| == |t| && s[..at] == t[..at]
    ensures s[from..to] == t[from..to]
  {
    forall k | from <= k < to
      ensures s[k] == t[k]
    {
      assert s[..at][k] == t[..at][k];
    }
  }

  lemma UntouchedByBoth(s: seq<int>, lo: nat, mid: nat, hi: nat)
    requires lo <= mid <= hi <= |s|
    ensures var t := SortedWithin(SortedWithin(s, lo, mid), mid, hi);
            t[..lo] == s[..lo] && t[hi..] == s[hi..]
  {
  }

  /** Sorting each half and merging them sorts the whole. */
  lemma HalvesSorted(s: seq<int>, lo: nat, mid: nat, hi: nat)
    requires lo <= hi <= |s| && 1 < hi - lo && mid == lo + (hi - lo) / 2
    ensures Halves(SortedWithin(SortedWithin(s, lo, mid), mid, hi), lo, mid, hi) == MergeSorted(s[lo..hi])
  {
    var r := s[lo..hi];
    var u := SortedWithin(s, lo, mid);
    PartsOf(s, lo, mid);
    PartsOf(u, mid, hi);
    HalvesOf(s, lo, mid, hi);
    assert |r| / 2 == mid - lo;
    Later(u, s, mid, mid, hi);
    Earlier(SortedWithin(u, mid, hi), u, mid, lo, mid);
  }

  lemma ShortIsSorted(s: seq<int>, lo: nat, hi: nat)
    requires lo <= hi <= |s| && hi - lo <= 1
    ensures SortedWithin(s, lo, hi) == s
  {
  }

  /** Sorts the elements from `lo` up to `hi` and touches no other. */
  method SortRange(a: array<int>, lo: nat, hi: nat)
    requires lo <= hi <= a.Length
    modifies a
    ensures a[..] == SortedWithin(old(a[..]), lo, hi)
    decreases hi - lo
  {
    ghost var s := a[..];
    var len := hi - lo;
    if len <= 1 {
      ShortIsSorted(s, lo, hi);
      return;
    }
    var mid := lo + len / 2;
    SortRange(a, lo, mid);
    SortRange(a, mid, hi);
    ghost var t := a[..];
    HalvesSorted(s, lo, mid, hi);
    UntouchedByBoth(s, lo, mid, hi);
    var tmp := MergeHalves(a, lo, mid, hi);
    assert a[..lo] == t[..lo] && a[hi..] == t[hi..];
    CopyBack(a, lo, tmp);
  }
}
