/** Rearranging a stretch of a sequence. */
module Stretch {

  ghost function Bag(s: seq<nat>, lo: nat, hi: nat): multiset<nat>
    requires lo <= hi <= |s|
  {
    multiset(s[lo..hi])
  }

  lemma BagSplit(s: seq<nat>, lo: nat, mid: nat, hi: nat)
    requires lo <= mid <= hi <= |s|
    ensures Bag(s, lo, hi) == Bag(s, lo, mid) + Bag(s, mid, hi)
  {
    assert s[lo..hi] == s[lo..mid] + s[mid..hi];
  }

  /** `t` is `s` with the elements at lo..hi-1 permuted and nothing else touched. */
  ghost predicate Permutes(s: seq<nat>, t: seq<nat>, lo: int, hi: int)
  {
    && 0 <= lo <= hi <= |s| == |t|
    && s[..lo] == t[..lo] && s[hi..] == t[hi..]
    && Bag(s, lo, hi) == Bag(t, lo, hi)
  }

  ghost predicate Descends(s: seq<nat>, lo: int, hi: int)
    requires 0 <= lo && hi <= |s|
  {
    forall x, y :: lo <= x < y < hi ==> s[x] >= s[y]
  }

  lemma PermutesTrans(r: seq<nat>, s: seq<nat>, t: seq<nat>, lo: int, hi: int)
    requires Permutes(r, s, lo, hi) && Permutes(s, t, lo, hi)
    ensures Permutes(r, t, lo, hi)
  {
  }

  lemma PermutesWider(s: seq<nat>, t: seq<nat>, lo: int, hi: int, lo': int, hi': int)
    requires Permutes(s, t, lo, hi) && 0 <= lo' <= lo && hi <= hi' <= |s|
    ensures Permutes(s, t, lo', hi')
  {
    WiderSlice(s, lo, hi, lo', hi');
    WiderSlice(t, lo, hi, lo', hi');
  }

  lemma WiderSlice(s: seq<nat>, lo: int, hi: int, lo': int, hi': int)
    requires 0 <= lo' <= lo <= hi <= hi' <= |s|
    ensures s[..lo'] == s[..lo][..lo'] && s[hi'..] == s[hi..][hi' - hi..]
    ensures s[lo'..hi'] == s[..lo][lo'..] + s[lo..hi] + s[hi..][..hi' - hi]
  {
  }

  lemma SwapPermutes(s: seq<nat>, i: int, j: int, lo: int, hi: int)
    requires 0 <= lo <= i < hi <= |s| && lo <= j < hi
    ensures Permutes(s, s[i := s[j]][j := s[i]], lo, hi)
  {
    var t := s[i := s[j]][j := s[i]];
    assert t[lo..hi] == s[lo..hi][i - lo := s[j]][j - lo := s[i]];
    assert s[lo..hi][i - lo] == s[i] && s[lo..hi][j - lo] == s[j];
  }

  /** Take the element at `j` out and put it back at `p <= j`. */
  function Lifted(s: seq<nat>, p: int, j: int): seq<nat>
    requires 0 <= p <= j < |s|
  {
    s[..p] + [s[j]] + s[p..j] + s[j + 1..]
  }

  lemma LiftedAt(s: seq<nat>, p: int, j: int)
    requires 0 <= p <= j < |s|
    ensures |Lifted(s, p, j)| == |s|
    ensures forall x :: 0 <= x < |s| ==>
      Lifted(s, p, j)[x] == if x < p || x > j then s[x] else if x == p then s[j] else s[x - 1]
  {
  }

  lemma PermutesSelf(s: seq<nat>, lo: int, hi: int)
    requires 0 <= lo <= hi <= |s|
    ensures Permutes(s, s, lo, hi)
  {
  }

  lemma LiftPermutes(s: seq<nat>, p: int, j: int, lo: int, hi: int)
    requires 0 <= lo <= p <= j < hi <= |s|
    ensures Permutes(s, Lifted(s, p, j), lo, hi)
  {
    var t := Lifted(s, p, j);
    assert s[lo..hi] == s[lo..p] + s[p..j] + [s[j]] + s[j + 1..hi];
    assert t[lo..hi] == s[lo..p] + [s[j]] + s[p..j] + s[j + 1..hi];
    assert t[..lo] == s[..lo] && t[hi..] == s[hi..];
  }

  /** Every value of the permuted stretch was in it before. */
  lemma PermutedFrom(s: seq<nat>, t: seq<nat>, lo: int, hi: int, x: int) returns (y: int)
    requires Permutes(s, t, lo, hi) && lo <= x < hi
    ensures lo <= y < hi && s[y] == t[x]
  {
    assert t[lo..hi][x - lo] == t[x];
    assert t[x] in multiset(t[lo..hi]);
    var k :| 0 <= k < |s[lo..hi]| && s[lo..hi][k] == t[x];
    y := lo + k;
  }

  lemma PermutesOutside(s: seq<nat>, t: seq<nat>, lo: int, hi: int, x: int)
    requires Permutes(s, t, lo, hi) && 0 <= x < |s| && !(lo <= x < hi)
    ensures s[x] == t[x]
  {
    if x < lo {
      assert s[..lo][x] == t[..lo][x];
    } else {
      assert s[hi..][x - hi] == t[hi..][x - hi];
    }
  }
}

/** ID lists of LMDB (deps/lmdb/midl.c): ids[0] holds the count, ids[1..] the ids. */
module Midl {
  import opened Basics
  import opened Stretch

  // ---- mdb_midl_search ----

  ghost predicate Holds(s: seq<nat>, n: nat, id: nat)
    requires n < |s|
  {
    exists x :: 1 <= x <= n && s[x] == id
  }

  /** `mdb_midl_search`: on a descending list, a position of `id` when it is there,
      and otherwise the one place where it would be inserted. */
  method Search(ids: array<nat>, id: nat) returns (cursor: nat)
    requires ids.Length > 0 && ids[0] < ids.Length
    requires forall x, y :: 1 <= x < y <= ids[0] ==> ids[x] >= ids[y]
    ensures 1 <= cursor <= ids[0] + 1
    ensures Holds(ids[..], ids[0], id) ==> cursor <= ids[0] && ids[cursor] == id
    ensures !Holds(ids[..], ids[0], id) ==> forall x :: 1 <= x < cursor ==> ids[x] > id
    ensures !Holds(ids[..], ids[0], id) ==> forall x :: cursor <= x <= ids[0] ==> ids[x] < id
  {
    var base := 0;
    cursor := 1;
    var val := 0;
    var n := ids[0];
    while 0 < n
      invariant 0 <= base && base + n <= ids[0]
      invariant forall x :: 1 <= x <= base ==> ids[x] > id
      invariant forall x :: base + n < x <= ids[0] ==> ids[x] < id
      invariant val > 0 ==> cursor == base
      invariant val < 0 ==> cursor == base + n + 1
      invariant val == 0 ==> cursor == 1 && base == 0 && n == ids[0]
    {
      var pivot := n / 2;
      cursor := base + pivot + 1;
      val := if ids[cursor] < id then -1 else if ids[cursor] > id then 1 else 0;
      if val < 0 {
        n := pivot;
      } else if val > 0 {
        base := cursor;
        n := n - (pivot + 1);
      } else {
        return cursor;
      }
    }
    if val > 0 {
      cursor := cursor + 1;
    }
  }

  // ---- mdb_midl_xmerge ----

  ghost predicate DescendingList(s: seq<nat>, n: nat)
    requires n < |s|
  {
    Descends(s, 1, n + 1)
  }

  const SENTINEL: nat := 0xFFFF_FFFF_FFFF_FFFF

  ghost predicate Sizes(was: seq<nat>, mg: seq<nat>, now: seq<nat>, i: int, j: int)
  {
    && 0 < |was| == |now| && 0 < |mg|
    && 0 <= i <= mg[0] < |mg| && 0 <= j <= was[0] && was[0] + mg[0] < |was|
  }

  /** Part way through a merge from the back: `i` ids of `mg` and `j` of `was` are
      unread, and the stretch above i + j holds the smallest, in order. */
  ghost predicate OrderedDown(was: seq<nat>, mg: seq<nat>, now: seq<nat>, i: int, j: int)
    requires Sizes(was, mg, now, i, j)
  {
    && now[0] == SENTINEL
    && (forall x :: 1 <= x <= j || was[0] + mg[0] < x < |was| ==> now[x] == was[x])
    && Descends(now, i + j + 1, was[0] + mg[0] + 1)
    && (forall x, y :: i + j < x <= was[0] + mg[0] && 1 <= y <= j ==> now[x] <= was[y])
    && (forall x, y :: i + j < x <= was[0] + mg[0] && 1 <= y <= i ==> now[x] <= mg[y])
  }

  ghost predicate BaggedDown(was: seq<nat>, mg: seq<nat>, now: seq<nat>, i: int, j: int)
    requires Sizes(was, mg, now, i, j)
  {
    Bag(now, i + j + 1, was[0] + mg[0] + 1) == Bag(was, j + 1, was[0] + 1) + Bag(mg, i + 1, mg[0] + 1)
  }

  ghost predicate MergedDown(was: seq<nat>, mg: seq<nat>, now: seq<nat>, i: int, j: int)
  {
    Sizes(was, mg, now, i, j) && OrderedDown(was, mg, now, i, j) && BaggedDown(was, mg, now, i, j)
  }

  lemma BagFrom(s: seq<nat>, k: nat, end: nat)
    requires k < end <= |s|
    ensures Bag(s, k, end) == multiset{s[k]} + Bag(s, k + 1, end)
  {
    assert s[k..end] == [s[k]] + s[k + 1..end];
  }

  lemma BagAbove(s: seq<nat>, k: nat, v: nat, end: nat)
    requires k < end <= |s|
    ensures Bag(s[k := v], k + 1, end) == Bag(s, k + 1, end)
  {
    assert s[k := v][k + 1..end] == s[k + 1..end];
  }

  /** The bag above grows by the value written at its lower end. */
  lemma TakeBag(was: seq<nat>, mg: seq<nat>, now: seq<nat>, i: int, j: int, v: nat)
    requires Sizes(was, mg, now, i, j) && BaggedDown(was, mg, now, i, j) && i + j > 0
    ensures j > 0 && v == was[j] ==> BaggedDown(was, mg, now[i + j := v], i, j - 1)
    ensures i > 0 && v == mg[i] ==> BaggedDown(was, mg, now[i + j := v], i - 1, j)
  {
    hide Bag;
    var end, k := was[0] + mg[0] + 1, i + j;
    BagFrom(now[k := v], k, end);
    BagAbove(now, k, v, end);
    if j > 0 { BagFrom(was, j, was[0] + 1); }
    if i > 0 { BagFrom(mg, i, mg[0] + 1); }
  }

  lemma TakeOldInOrder(was: seq<nat>, mg: seq<nat>, now: seq<nat>, i: int, j: int)
    requires Sizes(was, mg, now, i, j) && OrderedDown(was, mg, now, i, j)
    requires DescendingList(was, was[0]) && DescendingList(mg, mg[0])
    requires i > 0 && j > 0 && was[j] < mg[i]
    ensures OrderedDown(was, mg, now[i + j := was[j]], i, j - 1)
  {
  }

  lemma TakeNewInOrder(was: seq<nat>, mg: seq<nat>, now: seq<nat>, i: int, j: int)
    requires Sizes(was, mg, now, i, j) && OrderedDown(was, mg, now, i, j)
    requires DescendingList(was, was[0]) && DescendingList(mg, mg[0])
    requires i > 0 && (j > 0 ==> was[j] >= mg[i])
    ensures OrderedDown(was, mg, now[i + j := mg[i]], i - 1, j)
  {
  }

  lemma TakeOld(was: seq<nat>, mg: seq<nat>, now: seq<nat>, i: int, j: int)
    requires MergedDown(was, mg, now, i, j) && DescendingList(was, was[0]) && DescendingList(mg, mg[0])
    requires i > 0 && j > 0 && was[j] < mg[i]
    ensures MergedDown(was, mg, now[i + j := was[j]], i, j - 1)
  {
    hide OrderedDown, BaggedDown, DescendingList;
    TakeOldInOrder(was, mg, now, i, j);
    TakeBag(was, mg, now, i, j, was[j]);
  }

  lemma TakeNew(was: seq<nat>, mg: seq<nat>, now: seq<nat>, i: int, j: int)
    requires MergedDown(was, mg, now, i, j) && DescendingList(was, was[0]) && DescendingList(mg, mg[0])
    requires i > 0 && (j > 0 ==> was[j] >= mg[i])
    ensures MergedDown(was, mg, now[i + j := mg[i]], i - 1, j)
  {
    hide OrderedDown, BaggedDown, DescendingList;
    TakeNewInOrder(was, mg, now, i, j);
    TakeBag(was, mg, now, i, j, mg[i]);
  }

  lemma MergeBegins(was: seq<nat>, mg: seq<nat>)
    requires Sizes(was, mg, was, 0, 0)
    ensures MergedDown(was, mg, was[0 := SENTINEL], mg[0], was[0])
  {
  }

  lemma NextOld(was: seq<nat>, mg: seq<nat>, now: seq<nat>, i: int, j: int)
    requires MergedDown(was, mg, now, i, j)
    ensures if j > 0 then now[j] == was[j] else now[j] == SENTINEL
  {
  }

  /** `out` is the descending merge of the lists `a` and `b`, past which it is `a`. */
  ghost predicate IsMerge(a: seq<nat>, b: seq<nat>, out: seq<nat>)
    requires 0 < |a| == |out| && 0 < |b| && b[0] < |b| && a[0] + b[0] < |a|
  {
    var total := a[0] + b[0];
    && out[0] == total
    && DescendingList(out, total)
    && Bag(out, 1, total + 1) == Bag(a, 1, a[0] + 1) + Bag(b, 1, b[0] + 1)
    && out[total + 1..] == a[total + 1..]
  }

  lemma EndsInOrder(was: seq<nat>, mg: seq<nat>, now: seq<nat>, j: int)
    requires Sizes(was, mg, now, 0, j) && OrderedDown(was, mg, now, 0, j) && DescendingList(was, was[0])
    ensures var t := now[0 := was[0] + mg[0]]; var end := was[0] + mg[0] + 1;
      DescendingList(t, end - 1) && t[end..] == was[end..]
      && Bag(t, 1, j + 1) == Bag(was, 1, j + 1) && Bag(t, j + 1, end) == Bag(now, j + 1, end)
  {
    var t := now[0 := was[0] + mg[0]];
    assert t[1..j + 1] == was[1..j + 1];
    assert t[j + 1..was[0] + mg[0] + 1] == now[j + 1..was[0] + mg[0] + 1];
  }

  lemma MergeEnds(was: seq<nat>, mg: seq<nat>, now: seq<nat>, j: int)
    requires MergedDown(was, mg, now, 0, j) && DescendingList(was, was[0])
    ensures IsMerge(was, mg, now[0 := was[0] + mg[0]])
  {
    hide Bag, DescendingList;
    EndsInOrder(was, mg, now, j);
    BagSplit(now[0 := was[0] + mg[0]], 1, j + 1, was[0] + mg[0] + 1);
    BagSplit(was, 1, j + 1, was[0] + 1);
  }

  /** `mdb_midl_xmerge`: merge the descending list `merge` into the descending list
      `idl` from the back, with an all-ones sentinel in idl[0]. No unread id is
      overwritten. */
  method XMerge(idl: array<nat>, merge: array<nat>)
    requires idl != merge && idl.Length > 0 && merge.Length > 0
    requires merge[0] < merge.Length && idl[0] + merge[0] < idl.Length
    requires DescendingList(idl[..], idl[0]) && DescendingList(merge[..], merge[0])
    requires forall x :: 1 <= x <= merge[0] ==> merge[x] <= SENTINEL
    modifies idl
    ensures IsMerge(old(idl[..]), merge[..], idl[..])
  {
    hide OrderedDown, BaggedDown, DescendingList, IsMerge;
    ghost var was, mg := idl[..], merge[..];
    var i, j := merge[0], idl[0];
    var k := i + j;
    var total := k;
    MergeBegins(was, mg);
    idl[0] := SENTINEL;
    var oldId := idl[j];
    ghost var now := was[0 := SENTINEL];
    while i > 0
      invariant merge[..] == mg && idl[..] == now && k == i + j
      invariant MergedDown(was, mg, now, i, j) && oldId == idl[j]
    {
      var mergeId := merge[i];
      assert mergeId == mg[i] <= SENTINEL;
      i := i - 1;
      while oldId < mergeId
        invariant merge[..] == mg && idl[..] == now && k == i + 1 + j
        invariant MergedDown(was, mg, now, i + 1, j) && oldId == idl[j]
        decreases j
      {
        NextOld(was, mg, now, i + 1, j);
        TakeOld(was, mg, now, i + 1, j);
        idl[k] := oldId;
        now := now[k := oldId];
        k := k - 1;
        j := j - 1;
        oldId := idl[j];
      }
      NextOld(was, mg, now, i + 1, j);
      TakeNew(was, mg, now, i + 1, j);
      idl[k] := mergeId;
      now := now[k := mergeId];
      k := k - 1;
    }
    MergeEnds(was, mg, now, j);
    idl[0] := total;
  }
  // ---- mdb_midl_sort ----

  const SMALL := 8
  const STACK_SLOTS := 64   // sizeof(int) * CHAR_BIT * 2

  /** Shift what is smaller than ids[j] one place up and put ids[j] below it. */
  method InsertOne(ids: array<nat>, l: int, j: int) returns (ghost p: int)
    requires 1 <= l <= j < ids.Length
    requires forall x :: 1 <= x < l ==> ids[x] >= ids[j]
    modifies ids
    ensures l <= p <= j && ids[..] == Lifted(old(ids[..]), p, j)
    ensures forall x :: p <= x < j ==> old(ids[x]) < old(ids[j])
    ensures p > l ==> old(ids[p - 1]) >= old(ids[j])
  {
    ghost var was := ids[..];
    var a := ids[j];
    var i := j - 1;
    while i >= 1 && ids[i] < a
      invariant l - 1 <= i <= j - 1
      invariant Shifted(was, ids[..], i + 1, j)
      invariant forall x :: i < x < j ==> was[x] < a
    {
      ids[i + 1] := ids[i];
      i := i - 1;
    }
    p := i + 1;
    ShiftedIsLifted(was, ids[..], p, j);
    ids[i + 1] := a;
  }

  /** Everything between the hole `p` and `j` has moved one place up. */
  ghost predicate Shifted(s: seq<nat>, t: seq<nat>, p: int, j: int)
  {
    && |t| == |s| && 0 <= p <= j < |s|
    && (forall x :: 0 <= x < p || j < x < |s| ==> t[x] == s[x])
    && (forall x :: p < x <= j ==> t[x] == s[x - 1])
  }

  lemma ShiftedIsLifted(s: seq<nat>, t: seq<nat>, p: int, j: int)
    requires Shifted(s, t, p, j)
    ensures t[p := s[j]] == Lifted(s, p, j)
  {
    LiftedAt(s, p, j);
    hide Lifted;
  }

  ghost predicate AboveRest(s: seq<nat>, l: int, ir: int)
    requires 1 <= l && ir < |s|
  {
    forall x, y :: 1 <= x < l <= y <= ir ==> s[x] >= s[y]
  }

  /** The insertion pass. It scans down to index 1, but what stands left of `l` is
      large enough to stop it. */
  method InsertionSort(ids: array<nat>, l: int, ir: int)
    requires 1 <= l <= ir + 1 <= ids.Length
    requires AboveRest(ids[..], l, ir)
    modifies ids
    ensures Permutes(old(ids[..]), ids[..], l, ir + 1)
    ensures Descends(ids[..], l, ir + 1)
  {
    hide Permutes, Lifted;
    ghost var was := ids[..];
    PermutesSelf(was, l, ir + 1);
    var j := l + 1;
    while j <= ir
      invariant l + 1 <= j && (l <= ir ==> j <= ir + 1)
      invariant Permutes(was, ids[..], l, ir + 1)
      invariant Descends(ids[..], l, if j <= ir + 1 then j else ir + 1)
      invariant AboveRest(ids[..], l, ir)
    {
      ghost var now := ids[..];
      ghost var p := InsertOne(ids, l, j);
      LiftPermutes(now, p, j, l, ir + 1);
      PermutesTrans(was, now, ids[..], l, ir + 1);
      LiftKeepsOrder(now, p, j, l, ir);
      j := j + 1;
    }
  }

  lemma LiftKeepsOrder(s: seq<nat>, p: int, j: int, l: int, ir: int)
    requires 1 <= l <= p <= j <= ir < |s|
    requires Descends(s, l, j)
    requires AboveRest(s, l, ir)
    requires forall x :: p <= x < j ==> s[x] < s[j]
    requires p > l ==> s[p - 1] >= s[j]
    ensures |Lifted(s, p, j)| == |s| && Descends(Lifted(s, p, j), l, j + 1) && AboveRest(Lifted(s, p, j), l, ir)
  {
    LiftedAt(s, p, j);
  }

  /** Choose the median of left, center and right, and put it at l + 1. */
  method MedianOfThree(ids: array<nat>, l: int, ir: int)
    requires 1 <= l && ir - l >= SMALL && ir < ids.Length
    modifies ids
    ensures Permutes(old(ids[..]), ids[..], l, ir + 1)
    ensures ids[l] >= ids[l + 1] >= ids[ir]
  {
    hide Permutes;
    ghost var was := ids[..];
    PermutesSelf(was, l, ir + 1);
    var k := (l + ir) / 2;
    SwapIds(ids, k, l + 1, l, ir, was);
    if ids[l] < ids[ir] {
      SwapIds(ids, l, ir, l, ir, was);
    }
    if ids[l + 1] < ids[ir] {
      SwapIds(ids, l + 1, ir, l, ir, was);
    }
    if ids[l] < ids[l + 1] {
      SwapIds(ids, l, l + 1, l, ir, was);
    }
  }

  /** The two scans and swaps of a partition around ids[l + 1]. */
  method Split(ids: array<nat>, l: int, ir: int) returns (i: int, j: int)
    requires 1 <= l && ir - l >= SMALL && ir < ids.Length
    requires ids[l] >= ids[l + 1] >= ids[ir]
    modifies ids
    ensures l < j < i <= ir && ids[l + 1] == old(ids[l + 1])
    ensures Permutes(old(ids[..]), ids[..], l, ir + 1)
    ensures forall x :: l <= x < i ==> ids[x] >= ids[l + 1]
    ensures forall x :: j < x <= ir ==> ids[x] <= ids[l + 1]
    ensures ids[j] >= ids[l + 1]
  {
    hide Permutes;
    ghost var was := ids[..];
    PermutesSelf(was, l, ir + 1);
    i := l + 1;
    j := ir;
    var a := ids[l + 1];
    while true
      invariant l + 1 <= i <= j <= ir
      invariant i == j ==> i < ir && l + 1 < i
      invariant ids[l + 1] == a
      invariant forall x :: l <= x <= i ==> ids[x] >= a
      invariant forall x :: j <= x <= ir ==> ids[x] <= a
      invariant Permutes(was, ids[..], l, ir + 1)
      decreases j - i
    {
      ghost var stop := if i < j then j else j + 1;
      i := i + 1;
      while ids[i] > a
        invariant l + 1 < i <= stop
        invariant forall x :: l <= x < i ==> ids[x] >= a
        decreases ir - i
      {
        i := i + 1;
      }
      j := j - 1;
      while ids[j] < a
        invariant l + 1 <= j < ir
        invariant forall x :: j < x <= ir ==> ids[x] <= a
        decreases j
      {
        j := j - 1;
      }
      if j < i {
        break;
      }
      SwapIds(ids, i, j, l, ir, was);
    }
  }

  /** A partition: everything up to j - 1 is at least the pivot, everything from i
      on at most the pivot, and what is between equals it. */
  method Partition(ids: array<nat>, l: int, ir: int) returns (i: int, j: int)
    requires 1 <= l && ir - l >= SMALL && ir < ids.Length
    modifies ids
    ensures l < j < i <= ir
    ensures Permutes(old(ids[..]), ids[..], l, ir + 1)
    ensures InTwoParts(ids[..], l, j - 1, i, ir)
  {
    hide Permutes;
    ghost var was := ids[..];
    MedianOfThree(ids, l, ir);
    ghost var median := ids[..];
    i, j := Split(ids, l, ir);
    ghost var before := ids[..];
    var a := ids[l + 1];
    ids[l + 1] := ids[j];
    ids[j] := a;
    assert ids[..] == before[l + 1 := before[j]][j := before[l + 1]];
    SwapPermutes(before, l + 1, j, l, ir + 1);
    PermutesTrans(was, median, before, l, ir + 1);
    PermutesTrans(was, before, ids[..], l, ir + 1);
    AroundPivot(ids[..], l, j, i, ir, a);
  }

  /** Positions in l..ir that are not both in l..m nor both in k..ir are in order. */
  ghost predicate InTwoParts(s: seq<nat>, l: int, m: int, k: int, ir: int)
    requires 0 <= l && ir < |s|
  {
    forall x, y :: l <= x < y <= ir && y > m && x < k ==> s[x] >= s[y]
  }

  lemma AroundPivot(s: seq<nat>, l: int, j: int, i: int, ir: int, a: nat)
    requires 0 <= l < j < i <= ir < |s| && s[j] == a
    requires forall x :: l <= x < i ==> s[x] >= a
    requires forall x :: j < x <= ir ==> s[x] <= a
    ensures InTwoParts(s, l, j - 1, i, ir)
  {
  }

  /** MIDL_SWAP */
  method SwapIds(ids: array<nat>, i: int, j: int, l: int, ir: int, ghost was: seq<nat>)
    requires 0 <= l <= i <= ir < ids.Length && l <= j <= ir
    requires Permutes(was, ids[..], l, ir + 1)
    modifies ids
    ensures ids[i] == old(ids[j]) && ids[j] == old(ids[i])
    ensures forall x :: 0 <= x < ids.Length && x != i && x != j ==> ids[x] == old(ids[x])
    ensures Permutes(was, ids[..], l, ir + 1)
  {
    hide Permutes, Bag;
    ghost var before := ids[..];
    ids[i], ids[j] := ids[j], ids[i];
    assert ids[..] == before[i := before[j]][j := before[i]];
    SwapPermutes(before, i, j, l, ir + 1);
    PermutesTrans(was, before, ids[..], l, ir + 1);
  }
  // ---- the pending segments ----

  datatype Segment = Segment(lo: int, hi: int)
  {
    predicate Holds(x: int, y: int) { lo <= x && y <= hi }

    function Size(): int { hi - lo + 1 }
  }

  ghost predicate Together(segs: seq<Segment>, x: int, y: int)
  {
    exists k :: 0 <= k < |segs| && segs[k].Holds(x, y)
  }

  /** Only pairs inside one pending segment may still be out of order. */
  ghost predicate Coarse(s: seq<nat>, n: int, segs: seq<Segment>)
    requires n < |s|
  {
    forall x, y :: 1 <= x < y <= n ==> s[x] >= s[y] || Together(segs, x, y)
  }

  /** Pending segments lie in 1..n and do not meet. The one at depth d is at most
      n / 2^d long, since only the larger half is ever pushed. */
  ghost predicate Stacked(n: int, segs: seq<Segment>)
  {
    Separate(n, segs) && Halved(n, segs)
  }

  ghost predicate Separate(n: int, segs: seq<Segment>)
  {
    && (forall k :: 0 <= k < |segs| ==> 1 <= segs[k].lo <= segs[k].hi + 1 <= n + 1)
    && (forall k, m :: 0 <= k < m < |segs| ==> segs[k].hi < segs[m].lo || segs[m].hi < segs[k].lo)
  }

  ghost predicate Halved(n: int, segs: seq<Segment>)
  {
    forall k :: 0 <= k < |segs| ==> segs[k].Size() * Pow2(k) <= n
  }

  lemma {:induction false} Pow2Grows(j: nat, k: nat)
    requires j <= k
    ensures Pow2(j) <= Pow2(k)
    decreases k
  {
    if j < k {
      Pow2Grows(j, k - 1);
    }
  }

  function Weight(segs: seq<Segment>): int
  {
    if segs == [] then 0
    else Weight(segs[..|segs| - 1]) + 2 * segs[|segs| - 1].Size() + 1
  }

  lemma {:induction false} WeightIsNatural(n: int, segs: seq<Segment>)
    requires Stacked(n, segs)
    ensures Weight(segs) >= 0
    decreases |segs|
  {
    if segs != [] {
      WeightIsNatural(n, segs[..|segs| - 1]);
    }
  }

  lemma WeightPush(segs: seq<Segment>, g: Segment)
    ensures Weight(segs + [g]) == Weight(segs) + 2 * g.Size() + 1
  {
    assert (segs + [g])[..|segs|] == segs;
  }

  /** Permuting inside the top segment cannot disorder any other pair. */
  lemma PermutedApart(s: seq<nat>, t: seq<nat>, n: int, rest: seq<Segment>, g: Segment, x: int, y: int)
    requires 0 <= n < |s| && Stacked(n, rest + [g]) && Coarse(s, n, rest + [g])
    requires Permutes(s, t, g.lo, g.hi + 1)
    requires 1 <= x < y <= n && !g.Holds(x, y) && !Together(rest, x, y)
    ensures t[x] >= t[y]
  {
    hide Permutes, Halved;
    var segs := rest + [g];
    assert segs[|rest|] == g && forall k :: 0 <= k < |rest| ==> segs[k] == rest[k];
    var x', y' := x, y;
    if g.lo <= x <= g.hi {
      x' := PermutedFrom(s, t, g.lo, g.hi + 1, x);
    } else {
      PermutesOutside(s, t, g.lo, g.hi + 1, x);
    }
    if g.lo <= y <= g.hi {
      y' := PermutedFrom(s, t, g.lo, g.hi + 1, y);
    } else {
      PermutesOutside(s, t, g.lo, g.hi + 1, y);
    }
    assert 1 <= x' < y' <= n;
    forall k | 0 <= k < |segs| ensures !segs[k].Holds(x', y') {
      assert k < |rest| ==> !rest[k].Holds(x, y);
      assert k < |rest| ==> segs[k].hi < g.lo || g.hi < segs[k].lo;
    }
  }

  lemma TogetherBelow(rest: seq<Segment>, more: seq<Segment>, x: int, y: int)
    ensures Together(rest, x, y) ==> Together(rest + more, x, y)
  {
    if Together(rest, x, y) {
      var k :| 0 <= k < |rest| && rest[k].Holds(x, y);
      assert (rest + more)[k].Holds(x, y);
    }
  }

  lemma SegmentSorted(s: seq<nat>, t: seq<nat>, n: int, rest: seq<Segment>, g: Segment)
    requires 0 <= n < |s| && Stacked(n, rest + [g]) && Coarse(s, n, rest + [g])
    requires Permutes(s, t, g.lo, g.hi + 1) && Descends(t, g.lo, g.hi + 1)
    ensures Coarse(t, n, rest) && Stacked(n, rest)
  {
    forall x, y | 1 <= x < y <= n && !Together(rest, x, y) ensures t[x] >= t[y] {
      if !g.Holds(x, y) { PermutedApart(s, t, n, rest, g, x, y); }
    }
    StackedPrefix(n, rest, g);
  }

  lemma StackedPrefix(n: int, rest: seq<Segment>, g: Segment)
    requires Stacked(n, rest + [g])
    ensures Stacked(n, rest)
  {
    assert forall k :: 0 <= k < |rest| ==> (rest + [g])[k] == rest[k];
  }

  /** Replacing the top segment by its two parts, the larger one below. */
  lemma SegmentSplit(s: seq<nat>, t: seq<nat>, n: int, rest: seq<Segment>, g: Segment, big: Segment, small: Segment)
    requires 0 <= n < |s| && Stacked(n, rest + [g]) && Coarse(s, n, rest + [g])
    requires Permutes(s, t, g.lo, g.hi + 1)
    requires big.Size() >= small.Size() >= 0 && big.Size() + small.Size() < g.Size()
    requires (big.lo == g.lo && big.hi < small.lo && small.hi == g.hi && InTwoParts(t, g.lo, big.hi, small.lo, g.hi))
          || (small.lo == g.lo && small.hi < big.lo && big.hi == g.hi && InTwoParts(t, g.lo, small.hi, big.lo, g.hi))
    ensures Coarse(t, n, rest + [big, small])
    ensures Stacked(n, rest + [big, small])
    ensures Weight(rest + [big, small]) < Weight(rest + [g])
  {
    var segs, segs' := rest + [g], rest + [big, small];
    assert segs'[|rest|] == big && segs'[|rest| + 1] == small && forall k :: 0 <= k < |rest| ==> segs'[k] == rest[k];
    forall x, y | 1 <= x < y <= n && !Together(segs', x, y) ensures t[x] >= t[y] {
      assert !big.Holds(x, y) by { assert !segs'[|rest|].Holds(x, y); }
      assert !small.Holds(x, y) by { assert !segs'[|rest| + 1].Holds(x, y); }
      TogetherBelow(rest, [big, small], x, y);
      if !g.Holds(x, y) { PermutedApart(s, t, n, rest, g, x, y); }
    }
    SplitStacked(n, rest, g, big, small);
    WeightPush(rest, g);
    WeightPush(rest, big);
    WeightPush(rest + [big], small);
    assert rest + [big] + [small] == segs';
  }

  lemma SplitStacked(n: int, rest: seq<Segment>, g: Segment, big: Segment, small: Segment)
    requires Stacked(n, rest + [g])
    requires big.Size() >= small.Size() >= 0 && big.Size() + small.Size() < g.Size()
    requires (big.lo == g.lo && big.hi < small.lo && small.hi == g.hi) || (small.lo == g.lo && small.hi < big.lo && big.hi == g.hi)
    ensures Stacked(n, rest + [big, small])
  {
    HalvedSplit(n, rest, g, big, small);
    hide Halved;
    var segs, segs' := rest + [g], rest + [big, small];
    var d := |rest|;
    assert segs[d] == g && segs'[d] == big && segs'[d + 1] == small;
    assert forall k :: 0 <= k < d ==> segs[k] == rest[k] == segs'[k];
    forall k, m | 0 <= k < m < |segs'| ensures segs'[k].hi < segs'[m].lo || segs'[m].hi < segs'[k].lo {
      if k < d {
        var m' := if m < d then m else d;
        assert segs[k].hi < segs[m'].lo || segs[m'].hi < segs[k].lo;
      }
    }
  }

  lemma HalvedSplit(n: int, rest: seq<Segment>, g: Segment, big: Segment, small: Segment)
    requires Halved(n, rest + [g])
    requires big.Size() >= small.Size() >= 0 && big.Size() + small.Size() < g.Size()
    ensures Halved(n, rest + [big, small])
  {
    var segs, segs' := rest + [g], rest + [big, small];
    var d := |rest|;
    assert segs[d] == g && segs'[d] == big && segs'[d + 1] == small;
    forall k | 0 <= k < |segs'| ensures segs'[k].Size() * Pow2(k) <= n {
      if k < d {
        assert segs[k] == rest[k] == segs'[k];
      } else if k == d {
        MulMono(big.Size(), g.Size(), Pow2(d));
      } else {
        assert small.Size() * Pow2(d + 1) == (2 * small.Size()) * Pow2(d);
        MulMono(2 * small.Size(), g.Size(), Pow2(d));
      }
    }
  }

  lemma MulMono(a: int, b: int, c: int)
    requires a <= b && c >= 0
    ensures a * c <= b * c
  {
  }

  // The pivot is ids[(l+ir) >> 1] with l and ir C ints: below 2^30 their sum does not overflow.
  const MAX_COUNT := 0x4000_0000

  lemma TwoTo27()
    ensures Pow2(27) == 0x800_0000
  {
    assert Pow2(9) == 0x200;
    assert Pow2(18) == 0x4_0000;
  }

  /** A segment long enough to be split sits at most 26 deep. */
  lemma ShallowEnough(n: int, segs: seq<Segment>)
    requires n < MAX_COUNT && Stacked(n, segs) && segs != []
    requires segs[|segs| - 1].Size() > SMALL
    ensures |segs| - 1 <= 26
  {
    hide Pow2;
    var d := |segs| - 1;
    TwoTo27();
    if d >= 27 {
      Pow2Grows(27, d);
      MulMono(9, segs[d].Size(), Pow2(d));
    }
  }

  /** The stack array holds the pending segments below the current one. */
  ghost predicate OnStack(istack: seq<int>, jstack: int, rest: seq<Segment>)
  {
    && |istack| == STACK_SLOTS && jstack == 2 * |rest| && jstack < STACK_SLOTS
    && forall k :: 0 <= k < |rest| ==> istack[2 * k + 1] == rest[k].lo && istack[2 * k + 2] == rest[k].hi
  }

  /** A sorted segment leaves the work list. */
  lemma SortedStep(was: seq<nat>, s: seq<nat>, t: seq<nat>, n: int, rest: seq<Segment>, g: Segment)
    requires 0 <= n < |s| && Stacked(n, rest + [g]) && Coarse(s, n, rest + [g])
    requires Permutes(was, s, 1, n + 1) && 1 <= g.lo <= g.hi + 1 <= n + 1
    requires Permutes(s, t, g.lo, g.hi + 1) && Descends(t, g.lo, g.hi + 1)
    ensures |t| == |s| && Coarse(t, n, rest) && Stacked(n, rest) && Permutes(was, t, 1, n + 1)
    ensures 0 <= Weight(rest) < Weight(rest + [g])
  {
    hide Coarse, Stacked, Descends;
    SegmentSorted(s, t, n, rest, g);
    PermutesWider(s, t, g.lo, g.hi + 1, 1, n + 1);
    PermutesTrans(was, s, t, 1, n + 1);
    WeightPush(rest, g);
    WeightIsNatural(n, rest);
  }

  /** A split segment is replaced by its parts. */
  lemma SplitStep(was: seq<nat>, s: seq<nat>, t: seq<nat>, n: int, rest: seq<Segment>, g: Segment, big: Segment, small: Segment)
    requires 0 <= n < |s| && Stacked(n, rest + [g]) && Coarse(s, n, rest + [g])
    requires Permutes(was, s, 1, n + 1) && 1 <= g.lo <= g.hi + 1 <= n + 1
    requires Permutes(s, t, g.lo, g.hi + 1)
    requires big.Size() >= small.Size() >= 0 && big.Size() + small.Size() < g.Size()
    requires (big.lo == g.lo && big.hi < small.lo && small.hi == g.hi && InTwoParts(t, g.lo, big.hi, small.lo, g.hi))
          || (small.lo == g.lo && small.hi < big.lo && big.hi == g.hi && InTwoParts(t, g.lo, small.hi, big.lo, g.hi))
    ensures |t| == |s| && Coarse(t, n, rest + [big] + [small]) && Stacked(n, rest + [big] + [small])
    ensures Permutes(was, t, 1, n + 1)
    ensures 0 <= Weight(rest + [big] + [small]) < Weight(rest + [g])
  {
    hide Permutes, Coarse, Stacked, InTwoParts, Weight;
    assert rest + [big] + [small] == rest + [big, small];
    SegmentSplit(s, t, n, rest, g, big, small);
    PermutesWider(s, t, g.lo, g.hi + 1, 1, n + 1);
    PermutesTrans(was, s, t, 1, n + 1);
    WeightIsNatural(n, rest + [big] + [small]);
  }

  lemma Pushed(istack: seq<int>, istack': seq<int>, jstack: int, rest: seq<Segment>, g: Segment)
    requires OnStack(istack, jstack, rest) && jstack + 2 < STACK_SLOTS
    requires istack' == istack[jstack + 2 := g.hi][jstack + 1 := g.lo]
    ensures OnStack(istack', jstack + 2, rest + [g])
  {
  }

  lemma Popped(istack: seq<int>, jstack: int, rest: seq<Segment>)
    requires OnStack(istack, jstack, rest) && rest != []
    ensures 2 <= jstack
    ensures var below := rest[..|rest| - 1];
      OnStack(istack, jstack - 2, below) && rest == below + [Segment(istack[jstack - 1], istack[jstack])]
  {
  }

  /** `mdb_midl_sort`: quicksort with an explicit stack, descending, in place. All
      stack accesses stay within the 64 slots. */
  method Sort(ids: array<nat>)
    requires ids.Length > 0 && ids[0] < ids.Length && ids[0] < MAX_COUNT
    modifies ids
    ensures Permutes(old(ids[..]), ids[..], 1, old(ids[0]) + 1)
    ensures Descends(ids[..], 1, old(ids[0]) + 1)
  {
    hide Permutes, Coarse, Stacked, InTwoParts, AboveRest, Weight;
    var istack := new int[STACK_SLOTS];
    ghost var n: int := ids[0];
    ghost var was := ids[..];
    ghost var rest: seq<Segment> := [];
    var ir, l: int := ids[0], 1;
    var jstack := 0;
    PermutesSelf(was, 1, n + 1);
    StartsCoarse(was, n);
    while true
      invariant OnStack(istack[..], jstack, rest)
      invariant n < ids.Length && fresh(istack)
      invariant Stacked(n, rest + [Segment(l, ir)]) && Coarse(ids[..], n, rest + [Segment(l, ir)])
      invariant Permutes(was, ids[..], 1, n + 1)
      decreases Weight(rest + [Segment(l, ir)])
    {
      ghost var g := Segment(l, ir);
      ghost var now := ids[..];
      TopInBounds(now, n, rest, g);
      WeightIsNatural(n, rest + [g]);
      if ir - l < SMALL {
        InsertionSort(ids, l, ir);
        SortedStep(was, now, ids[..], n, rest, g);
        if jstack == 0 {
          break;
        }
        ghost var below := rest[..|rest| - 1];
        Popped(istack[..], jstack, rest);
        ir := istack[jstack];
        jstack := jstack - 1;
        l := istack[jstack];
        jstack := jstack - 1;
        rest := below;
      } else {
        var i, j := Partition(ids, l, ir);
        ShallowEnough(n, rest + [g]);
        ghost var stack := istack[..];
        jstack := jstack + 2;
        if ir - i + 1 >= j - l {
          istack[jstack] := ir;
          istack[jstack - 1] := i;
          SplitStep(was, now, ids[..], n, rest, g, Segment(i, ir), Segment(l, j - 1));
          Pushed(stack, istack[..], jstack - 2, rest, Segment(i, ir));
          rest := rest + [Segment(i, ir)];
          ir := j - 1;
        } else {
          istack[jstack] := j - 1;
          istack[jstack - 1] := l;
          SplitStep(was, now, ids[..], n, rest, g, Segment(l, j - 1), Segment(i, ir));
          Pushed(stack, istack[..], jstack - 2, rest, Segment(l, j - 1));
          rest := rest + [Segment(l, j - 1)];
          l := i;
        }
      }
    }
    assert rest == [];
    NothingPending(ids[..], n);
  }

  lemma StartsCoarse(s: seq<nat>, n: int)
    requires 0 <= n < |s|
    ensures [] + [Segment(1, n)] == [Segment(1, n)]
    ensures Stacked(n, [Segment(1, n)]) && Coarse(s, n, [Segment(1, n)])
  {
    assert Pow2(0) == 1;
    forall x, y | 1 <= x < y <= n ensures Together([Segment(1, n)], x, y) {
      assert [Segment(1, n)][0].Holds(x, y);
    }
  }

  lemma TopInBounds(s: seq<nat>, n: int, rest: seq<Segment>, g: Segment)
    requires 0 <= n < |s| && Stacked(n, rest + [g]) && Coarse(s, n, rest + [g])
    ensures 1 <= g.lo <= g.hi + 1 <= n + 1
    ensures AboveRest(s, g.lo, g.hi)
  {
    var segs := rest + [g];
    assert segs[|rest|] == g;
    forall x, y | 1 <= x < g.lo <= y <= g.hi ensures s[x] >= s[y] {
      forall k | 0 <= k < |segs| ensures !segs[k].Holds(x, y) {
        assert k < |rest| ==> segs[k].hi < g.lo || g.hi < segs[k].lo;
      }
    }
  }

  lemma NothingPending(s: seq<nat>, n: int)
    requires 0 <= n < |s| && Coarse(s, n, [])
    ensures Descends(s, 1, n + 1)
  {
  }
}
