/** The k-way merge of reverse index scans (`ndb_index_merger_*`): one scanner
    per group, and a binary max-heap of the scanners that still have entries. */
module Merger {
  import opened Basics
  import opened LexOrder
  import opened Tables

  // `pos` is where the scanner's cursor sits in the table.
  datatype Scanner = Scanner(group: seq<nat>, pos: int, createdAt: nat, noteKey: nat)

  // ---- what a scanner still has to deliver ----

  /** Entry `j` is still owed by scanner `s`. */
  ghost predicate Owes(t: seq<Entry>, since: nat, s: Scanner, j: int)
  {
    0 <= j < |t| && j <= s.pos && t[j].group == s.group && since <= t[j].ts
  }

  ghost predicate Owed(t: seq<Entry>, since: nat, ss: seq<Scanner>, j: int)
  {
    exists i :: 0 <= i < |ss| && Owes(t, since, ss[i], j)
  }

  /** The positions that any of the scanners still owes. */
  ghost function Pending(t: seq<Entry>, since: nat, ss: seq<Scanner>): set<int>
  {
    set j | 0 <= j < |t| && Owed(t, since, ss, j)
  }

  ghost predicate Distinct(ss: seq<Scanner>)
  {
    forall i, j :: 0 <= i < j < |ss| ==> ss[i].group != ss[j].group
  }

  /** The scanner has read the entry under its cursor, which is in its group and
      not older than `since`. */
  ghost predicate Loaded(t: seq<Entry>, since: nat, s: Scanner)
  {
    0 <= s.pos < |t| && t[s.pos].group == s.group && since <= t[s.pos].ts
    && s.createdAt == t[s.pos].ts && s.noteKey == t[s.pos].key
  }

  ghost predicate Finished(t: seq<Entry>, since: nat, s: Scanner)
  {
    forall j :: !Owes(t, since, s, j)
  }

  // ---- the merge order ----

  /** `ndb_merger_gt` */
  predicate Newer(a: Scanner, b: Scanner)
  {
    if a.createdAt != b.createdAt then a.createdAt > b.createdAt else a.noteKey > b.noteKey
  }

  predicate NewerEntry(a: Entry, b: Entry)
  {
    if a.ts != b.ts then a.ts > b.ts else a.key > b.key
  }

  // ---- facts about one scanner ----

  /** Everything a loaded scanner owes other than the entry under its cursor is
      older than that entry. */
  lemma LoadedIsNewest(t: seq<Entry>, since: nat, s: Scanner, j: int)
    requires Sorted(t) && Loaded(t, since, s) && Owes(t, since, s, j)
    ensures j != s.pos ==> NewerEntry(t[s.pos], t[j])
  {
    if j < s.pos {
      InGroupDescends(t, j, s.pos);
    }
  }

  /** A cursor that left the group, or fell below `since`, owes nothing more. */
  lemma SteppedOut(t: seq<Entry>, since: nat, s: Scanner, next: int)
    requires Sorted(t) && Loaded(t, since, s) && -1 <= next < s.pos && next == s.pos - 1
    requires next < 0 || t[next].group != s.group || t[next].ts < since
    ensures Finished(t, since, s.(pos := next))
  {
    forall j | Owes(t, since, s.(pos := next), j) ensures false {
      GroupContiguous(t, j, next, s.pos);
    }
  }

  /** The same for a cursor placed by `ndb_cursor_start`, before any load. */
  lemma StartedOut(t: seq<Entry>, since: nat, until: nat, g: seq<nat>, pos: int)
    requires Sorted(t) && -1 <= pos < |t| && pos + 1 == SetRange(t, g, until)
    requires pos < 0 || t[pos].group != g || t[pos].ts < since
    ensures forall s: Scanner :: s.group == g && s.pos == pos ==> Finished(t, since, s)
  {
    forall s: Scanner, j | s.group == g && s.pos == pos && Owes(t, since, s, j) ensures false {
      // (g, ts of j) <= key of pos < (g, until), so pos is in the group too
      SetRangeSplits(t, g, until, pos);
      if j < pos {
        assert Less(t[j], t[pos]);
        if LexLess(g, t[pos].group) { LexAsymmetric(g, t[pos].group); }
        LexIrreflexive(g);
      }
    }
  }

  /** The range a scanner starts with is the group's [since, until) window. */
  lemma StartedRange(t: seq<Entry>, since: nat, until: nat, g: seq<nat>, pos: int, s: Scanner, j: int)
    requires Sorted(t) && -1 <= pos < |t| && pos + 1 == SetRange(t, g, until)
    requires s.group == g && s.pos == pos
    ensures Owes(t, since, s, j) <==> 0 <= j < |t| && t[j].group == g && since <= t[j].ts < until
  {
    if 0 <= j < |t| {
      SetRangeSplits(t, g, until, j);
      LexIrreflexive(g);
    }
  }

  // ---- heap contents ----

  ghost predicate SameElements(g: seq<int>, h: seq<int>)
  {
    |g| == |h| && NoRepeats(g) && NoRepeats(h) && forall x :: x in g <==> x in h
  }

  lemma SwapKeepsElements(h: seq<int>, i: nat, j: nat)
    requires NoRepeats(h) && i < |h| && j < |h|
    ensures SameElements(h, Swap(h, i, j))
  {
    var g := Swap(h, i, j);
    forall x ensures x in h <==> x in g {
      if x in h {
        var k :| 0 <= k < |h| && h[k] == x;
        assert g[if k == i then j else if k == j then i else k] == x;
      }
      if x in g {
        var k :| 0 <= k < |g| && g[k] == x;
        assert h[if k == i then j else if k == j then i else k] == x;
      }
    }
  }

  function Parent(h: int): int
    requires h > 0
  {
    (h - 1) / 2
  }

  ghost predicate Within(h: seq<int>, n: nat)
  {
    forall i :: 0 <= i < |h| ==> 0 <= h[i] < n
  }

  ghost predicate NotAbove(ss: seq<Scanner>, h: seq<int>, child: int, parent: int)
    requires Within(h, |ss|) && 0 <= child < |h| && 0 <= parent < |h|
  {
    !Newer(ss[h[child]], ss[h[parent]])
  }

  ghost predicate Heap(ss: seq<Scanner>, h: seq<int>)
    requires Within(h, |ss|)
  {
    forall c :: 0 < c < |h| ==> NotAbove(ss, h, c, Parent(c))
  }

  /** Heap order but for the edge above `hole`. */
  ghost predicate HeapButAbove(ss: seq<Scanner>, h: seq<int>, hole: int)
    requires Within(h, |ss|)
  {
    && (forall c :: 0 < c < |h| && c != hole ==> NotAbove(ss, h, c, Parent(c)))
    && (forall c :: 0 < c < |h| && Parent(c) == hole && hole > 0 ==> NotAbove(ss, h, c, Parent(hole)))
  }

  /** Heap order but for the edges below `hole`. */
  ghost predicate HeapButBelow(ss: seq<Scanner>, h: seq<int>, hole: int)
    requires Within(h, |ss|)
  {
    && (forall c :: 0 < c < |h| && Parent(c) != hole ==> NotAbove(ss, h, c, Parent(c)))
    && (forall c :: 0 < c < |h| && Parent(c) == hole && hole > 0 ==> NotAbove(ss, h, c, Parent(hole)))
  }

  lemma {:induction false} TopIsNewest(ss: seq<Scanner>, h: seq<int>, c: nat)
    requires Within(h, |ss|) && Heap(ss, h) && c < |h|
    ensures NotAbove(ss, h, c, 0)
    decreases c
  {
    if c > 0 {
      TopIsNewest(ss, h, Parent(c));
      assert NotAbove(ss, h, c, Parent(c));
    }
  }

  function Swap(h: seq<int>, i: nat, j: nat): seq<int>
    requires i < |h| && j < |h|
  {
    h[i := h[j]][j := h[i]]
  }

  lemma SwapUp(ss: seq<Scanner>, h: seq<int>, i: nat)
    requires Within(h, |ss|) && 0 < i < |h|
    requires HeapButAbove(ss, h, i) && !NotAbove(ss, h, i, Parent(i))
    ensures Within(Swap(h, i, Parent(i)), |ss|)
    ensures HeapButAbove(ss, Swap(h, i, Parent(i)), Parent(i))
  {
    var p := Parent(i);
    var g := Swap(h, i, p);
    forall c | 0 < c < |g| && c != p ensures NotAbove(ss, g, c, Parent(c)) {
      assert c != i ==> NotAbove(ss, h, c, Parent(c));
      if Parent(c) == i { assert NotAbove(ss, h, c, Parent(i)); }
    }
    forall c | 0 < c < |g| && Parent(c) == p && p > 0 ensures NotAbove(ss, g, c, Parent(p)) {
      assert NotAbove(ss, h, p, Parent(p));
      if c != i { assert NotAbove(ss, h, c, p); }
    }
  }

  lemma SwapDown(ss: seq<Scanner>, h: seq<int>, i: nat, big: nat)
    requires Within(h, |ss|) && 0 < big < |h| && Parent(big) == i
    requires HeapButBelow(ss, h, i) && !NotAbove(ss, h, big, i)
    requires forall c :: 0 < c < |h| && Parent(c) == i ==> NotAbove(ss, h, c, big)
    ensures Within(Swap(h, i, big), |ss|)
    ensures HeapButBelow(ss, Swap(h, i, big), big)
  {
    var g := Swap(h, i, big);
    forall c | 0 < c < |g| && Parent(c) != big ensures NotAbove(ss, g, c, Parent(c)) {
      if Parent(c) == i {
        assert NotAbove(ss, h, c, big);
      } else {
        assert NotAbove(ss, h, c, Parent(c));
        if c == i { assert NotAbove(ss, h, big, Parent(i)); }
      }
    }
    forall c | 0 < c < |g| && Parent(c) == big ensures NotAbove(ss, g, c, Parent(big)) {
      assert NotAbove(ss, h, c, big);
    }
  }

  lemma HeapAppend(ss: seq<Scanner>, h: seq<int>, x: nat)
    requires Within(h, |ss|) && Heap(ss, h) && x < |ss|
    requires NoRepeats(h) && x !in h
    ensures Within(h + [x], |ss|) && HeapButAbove(ss, h + [x], |h|)
    ensures SameElements(h + [x], h + [x])
    ensures h == [] ==> Heap(ss, h + [x])
  {
    var g := h + [x];
    forall c | 0 < c < |g| && c != |h| ensures NotAbove(ss, g, c, Parent(c)) {
      assert NotAbove(ss, h, c, Parent(c));
    }
  }

  lemma HeapFromAbove(ss: seq<Scanner>, h: seq<int>, i: nat)
    requires Within(h, |ss|) && 0 < i < |h|
    requires HeapButAbove(ss, h, i) && NotAbove(ss, h, i, Parent(i))
    ensures Heap(ss, h)
  {
  }

  lemma HeapFromBelow(ss: seq<Scanner>, h: seq<int>, i: nat)
    requires Within(h, |ss|) && (|h| > 0 ==> i < |h|)
    requires HeapButBelow(ss, h, i)
    requires 2 * i + 1 < |h| ==> NotAbove(ss, h, 2 * i + 1, i)
    requires 2 * i + 2 < |h| ==> NotAbove(ss, h, 2 * i + 2, i)
    ensures Heap(ss, h)
  {
    forall c | 0 < c < |h| ensures NotAbove(ss, h, c, Parent(c)) {
      assert Parent(c) == i ==> c == 2 * i + 1 || c == 2 * i + 2;
    }
  }

  lemma NewestChild(ss: seq<Scanner>, h: seq<int>, i: nat, big: nat)
    requires Within(h, |ss|) && i < big < |h|
    requires big == 2 * i + 1 || big == 2 * i + 2
    requires !NotAbove(ss, h, big, i)
    requires 2 * i + 1 < |h| && (big == 2 * i + 1 && 2 * i + 2 < |h| ==> NotAbove(ss, h, 2 * i + 2, big))
    requires big == 2 * i + 2 ==> NotAbove(ss, h, 2 * i + 1, big)
    ensures Parent(big) == i
    ensures forall c :: 0 < c < |h| && Parent(c) == i ==> NotAbove(ss, h, c, big)
  {
    forall c | 0 < c < |h| && Parent(c) == i ensures NotAbove(ss, h, c, big) {
      assert c == 2 * i + 1 || c == 2 * i + 2;
    }
  }

  lemma SameElementsTrans(f: seq<int>, g: seq<int>, h: seq<int>)
    requires SameElements(f, g) && SameElements(g, h)
    ensures SameElements(f, h)
  {
  }

  /** The entries of group `g` with `since <= ts < until`. */
  ghost function Window(t: seq<Entry>, g: seq<nat>, since: nat, until: nat): set<int>
  {
    set j | 0 <= j < |t| && t[j].group == g && since <= t[j].ts < until
  }

  lemma PendingAppend(t: seq<Entry>, since: nat, until: nat, ss: seq<Scanner>, s: Scanner)
    requires Sorted(t) && -1 <= s.pos < |t| && s.pos + 1 == SetRange(t, s.group, until)
    ensures Pending(t, since, ss + [s]) == Pending(t, since, ss) + Window(t, s.group, since, until)
  {
    forall j | 0 <= j < |t|
      ensures Owed(t, since, ss + [s], j) <==> Owed(t, since, ss, j) || j in Window(t, s.group, since, until)
    {
      StartedRange(t, since, until, s.group, s.pos, s, j);
      if Owed(t, since, ss, j) {
        var i :| 0 <= i < |ss| && Owes(t, since, ss[i], j);
        assert Owes(t, since, (ss + [s])[i], j);
      }
      if Owes(t, since, s, j) {
        assert Owes(t, since, (ss + [s])[|ss|], j);
      }
    }
  }

  /** Taking scanner `i` one step back removes exactly the entry it stood on. */
  lemma PendingStep(t: seq<Entry>, since: nat, ss: seq<Scanner>, i: nat, s: Scanner)
    requires Sorted(t) && i < |ss| && Distinct(ss) && Loaded(t, since, ss[i])
    requires s.group == ss[i].group && s.pos == ss[i].pos - 1
    ensures ss[i].pos in Pending(t, since, ss)
    ensures Pending(t, since, ss[i := s]) == Pending(t, since, ss) - {ss[i].pos}
  {
    var e := ss[i].pos;
    var tt := ss[i := s];
    assert Owes(t, since, ss[i], e);
    forall j | 0 <= j < |t|
      ensures Owed(t, since, tt, j) <==> Owed(t, since, ss, j) && j != e
    {
      if Owed(t, since, ss, j) && j != e {
        var k :| 0 <= k < |ss| && Owes(t, since, ss[k], j);
        assert Owes(t, since, tt[k], j);
      }
      if Owed(t, since, tt, j) {
        var k :| 0 <= k < |tt| && Owes(t, since, tt[k], j);
        assert Owes(t, since, ss[k], j);
      }
    }
  }

  /** The heap's top holds the newest entry any scanner still owes. */
  lemma TopOwesNewest(t: seq<Entry>, since: nat, ss: seq<Scanner>, h: seq<int>, f: int)
    requires Sorted(t) && Within(h, |ss|) && Heap(ss, h) && |h| > 0
    requires Complete(t, since, ss, h)
    requires f in Pending(t, since, ss)
    ensures 0 <= f < |t| && Loaded(t, since, ss[h[0]]) && !NewerEntry(t[f], t[ss[h[0]].pos])
  {
    assert h[0] in h;
    var i :| 0 <= i < |ss| && Owes(t, since, ss[i], f);
    assert i in h;
    var c :| 0 <= c < |h| && h[c] == i;
    LoadedIsNewest(t, since, ss[i], f);
    TopIsNewest(ss, h, c);
  }

  /** Moving the last element to the front and shrinking drops the front. */
  lemma Dropped(h: seq<int>, g: seq<int>)
    requires NoRepeats(h) && |h| > 0 && |g| == |h| - 1
    requires |g| > 0 ==> g == h[..|g|][0 := h[|g|]]
    ensures NoRepeats(g)
    ensures forall x :: x in g <==> x in h && x != h[0]
  {
    forall x ensures x in g <==> x in h && x != h[0] {
      if x in h && x != h[0] {
        var k :| 0 <= k < |h| && h[k] == x;
        assert g[if k == |g| then 0 else k] == x;
      }
      if x in g {
        var k :| 0 <= k < |g| && g[k] == x;
        assert h[if k == 0 then |g| else k] == x;
      }
    }
  }

  /** Changing the top's scanner, or replacing the top, disturbs only the edges
      below the root. */
  lemma Reordered(ss: seq<Scanner>, tt: seq<Scanner>, h: seq<int>, g: seq<int>, top: nat)
    requires Within(h, |ss|) && Heap(ss, h) && NoRepeats(h)
    requires |h| > 0 && top == h[0] && |tt| == |ss| && Within(g, |tt|)
    requires forall i :: 0 <= i < |ss| && i != top ==> tt[i] == ss[i]
    requires |g| <= |h| && forall c :: 0 < c < |g| ==> g[c] == h[c]
    ensures HeapButBelow(tt, g, 0)
  {
    forall c | 0 < c < |g| && Parent(c) != 0 ensures NotAbove(tt, g, c, Parent(c)) {
      assert NotAbove(ss, h, c, Parent(c));
    }
  }

  /** Exactly the unfinished scanners are in the heap, each loaded. */
  ghost predicate Complete(t: seq<Entry>, since: nat, ss: seq<Scanner>, h: seq<int>)
  {
    forall i :: 0 <= i < |ss| ==> if i in h then Loaded(t, since, ss[i]) else Finished(t, since, ss[i])
  }

  /** The merger's invariant. */
  ghost predicate Merging(t: seq<Entry>, since: nat, ss: seq<Scanner>, h: seq<int>)
  {
    && Sorted(t) && Distinct(ss)
    && Within(h, |ss|) && NoRepeats(h)
    && Complete(t, since, ss, h)
    && Heap(ss, h)
  }

  lemma Reheaped(t: seq<Entry>, since: nat, ss: seq<Scanner>, g: seq<int>, h: seq<int>)
    requires Sorted(t) && Distinct(ss) && Complete(t, since, ss, g)
    requires SameElements(g, h) && Within(h, |ss|) && Heap(ss, h)
    ensures Merging(t, since, ss, h)
  {
  }

  /** Adding a finished scanner, or a loaded one that goes on the heap. */
  lemma Added(t: seq<Entry>, since: nat, ss: seq<Scanner>, h: seq<int>, s: Scanner)
    requires Merging(t, since, ss, h)
    requires forall i :: 0 <= i < |ss| ==> ss[i].group != s.group
    ensures Distinct(ss + [s]) && Within(h, |ss + [s]|) && Heap(ss + [s], h) && |ss| !in h
    ensures Finished(t, since, s) ==> Merging(t, since, ss + [s], h)
    ensures Loaded(t, since, s) ==> Complete(t, since, ss + [s], h + [|ss|])
  {
    forall c | 0 < c < |h| ensures NotAbove(ss + [s], h, c, Parent(c)) {
      assert NotAbove(ss, h, c, Parent(c));
    }
  }

  lemma NothingLive(t: seq<Entry>, since: nat, ss: seq<Scanner>)
    requires Complete(t, since, ss, [])
    ensures Pending(t, since, ss) == {}
  {
  }

  /** One step of the top scanner: the heap `g` is the old one, or the old one
      without its top, and is in order but for the edges below the root. */
  lemma Advanced(t: seq<Entry>, since: nat, ss: seq<Scanner>, h: seq<int>, s: Scanner, g: seq<int>)
    requires Merging(t, since, ss, h) && |h| > 0
    requires s.group == ss[h[0]].group && s.pos == ss[h[0]].pos - 1
    requires if Loaded(t, since, s) then g == h
             else (s.pos < 0 || t[s.pos].group != s.group || t[s.pos].ts < since)
                  && |g| == |h| - 1 && (|g| > 0 ==> g == h[..|g|][0 := h[|g|]])
    ensures var tt := ss[h[0] := s];
      && Distinct(tt) && Within(g, |tt|) && NoRepeats(g)
      && Complete(t, since, tt, g) && HeapButBelow(tt, g, 0)
      && Pending(t, since, tt) == Pending(t, since, ss) - {ss[h[0]].pos}
      && ss[h[0]].pos in Pending(t, since, ss)
  {
    assert h[0] in h;
    PendingStep(t, since, ss, h[0], s);
    if !Loaded(t, since, s) {
      SteppedOut(t, since, ss[h[0]], s.pos);
      forall j ensures !Owes(t, since, s, j) {
        assert !Owes(t, since, ss[h[0]].(pos := s.pos), j);
      }
      Dropped(h, g);
    }
    Reordered(ss, ss[h[0] := s], h, g, h[0]);
  }

  class IndexMerger {
    const table: seq<Entry>
    const since: nat
    var scanners: array<Scanner>
    var heap: array<int>
    var numScanners: nat
    var heapLen: nat

    ghost function Scanners(): seq<Scanner>
      reads this, scanners
      requires numScanners <= scanners.Length
    {
      scanners[..numScanners]
    }

    ghost function Live(): seq<int>
      reads this, heap
      requires heapLen <= heap.Length
    {
      heap[..heapLen]
    }

    ghost predicate Shape()
      reads this, scanners, heap
    {
      && heapLen <= numScanners <= scanners.Length == heap.Length
      && NoRepeats(Live())
      && Within(Live(), numScanners)
    }

    ghost predicate Valid()
      reads this, scanners, heap
    {
      && Shape()
      && Merging(table, since, Scanners(), Live())
    }

    /** Table positions not yet delivered. */
    ghost function Rest(): set<int>
      reads this, scanners, heap
      requires Valid()
    {
      Pending(table, since, Scanners())
    }

    /** `ndb_index_merger_init` */
    constructor (table: seq<Entry>, since: nat, capacity: int)
      requires Sorted(table)
      ensures Valid() && fresh(scanners) && fresh(heap)
      ensures this.table == table && this.since == since
      ensures scanners.Length == if capacity <= 0 then 1 else capacity
      ensures numScanners == 0 && Rest() == {}
    {
      var cap := if capacity <= 0 then 1 else capacity;
      this.table := table;
      this.since := since;
      scanners := new Scanner[cap](_ => Scanner([], 0, 0, 0));
      heap := new int[cap];
      numScanners := 0;
      heapLen := 0;
    }

    /** `ndb_scanner_load`: read the entry under the cursor of scanner `i`. */
    method Load(i: nat) returns (ok: bool)
      requires i < scanners.Length && 0 <= scanners[i].pos < |table|
      modifies scanners
      ensures forall k :: 0 <= k < scanners.Length && k != i ==> scanners[k] == old(scanners[k])
      ensures scanners[i].group == old(scanners[i].group) && scanners[i].pos == old(scanners[i].pos)
      ensures ok ==> Loaded(table, since, scanners[i])
      ensures !ok ==> table[scanners[i].pos].group != scanners[i].group || table[scanners[i].pos].ts < since
    {
      var e := table[scanners[i].pos];
      if e.group != scanners[i].group {
        return false;
      }
      scanners[i] := scanners[i].(createdAt := e.ts, noteKey := e.key);
      return scanners[i].createdAt >= since;
    }

    /** `ndb_merger_swap` */
    method SwapHeap(a: nat, b: nat)
      requires heapLen <= heap.Length && a < heapLen && b < heapLen
      requires NoRepeats(Live())
      modifies heap
      ensures Live() == Swap(old(Live()), a, b)
      ensures SameElements(old(Live()), Live())
    {
      SwapKeepsElements(Live(), a, b);
      heap[a], heap[b] := heap[b], heap[a];
      assert Live() == Swap(old(Live()), a, b);
    }

    /** `ndb_merger_push` */
    method Push(scanner: nat)
      requires Shape() && heapLen < numScanners && scanner < numScanners && scanner !in Live()
      requires Heap(Scanners(), Live())
      modifies heap, this`heapLen
      ensures Shape() && heapLen == old(heapLen) + 1
      ensures Heap(Scanners(), Live())
      ensures SameElements(old(Live()) + [scanner], Live())
    {
      ghost var ss := Scanners();
      ghost var start := Live() + [scanner];
      var i := heapLen;
      heapLen := heapLen + 1;
      heap[i] := scanner;
      assert Live() == start;
      assert ss == Scanners();
      HeapAppend(ss, old(Live()), scanner);
      hide HeapButAbove, SameElements;
      while i > 0
        invariant 0 <= i < heapLen <= heap.Length
        invariant ss == Scanners()
        invariant SameElements(start, Live())
        invariant Within(Live(), |ss|) && HeapButAbove(ss, Live(), i)
      {
        var parent := (i - 1) / 2;
        ghost var was := Live();
        assert heap[i] == was[i] && heap[parent] == was[parent];
        assert scanners[heap[i]] == ss[was[i]] && scanners[heap[parent]] == ss[was[parent]];
        if !Newer(scanners[heap[i]], scanners[heap[parent]]) {
          HeapFromAbove(ss, was, i);
          break;
        }
        SwapUp(ss, was, i);
        SwapHeap(i, parent);
        SameElementsTrans(start, was, Live());
        i := parent;
      }
    }

    /** The newest of heap slot `i` and its children. */
    method NewestOf(i: nat) returns (big: nat)
      requires Shape() && (heapLen > 0 ==> i < heapLen)
      ensures i <= big && (heapLen > 0 ==> big < heapLen) && (heapLen == 0 ==> big == i)
      ensures big == i ==>
        && (2 * i + 1 < heapLen ==> NotAbove(Scanners(), Live(), 2 * i + 1, i))
        && (2 * i + 2 < heapLen ==> NotAbove(Scanners(), Live(), 2 * i + 2, i))
      ensures big != i ==>
        && Parent(big) == i && !NotAbove(Scanners(), Live(), big, i)
        && forall c :: 0 < c < heapLen && Parent(c) == i ==> NotAbove(Scanners(), Live(), c, big)
    {
      var l := i * 2 + 1;
      var r := l + 1;
      big := i;
      ghost var ss, h := Scanners(), Live();
      assert forall k :: 0 <= k < heapLen ==> heap[k] == h[k] && scanners[heap[k]] == ss[h[k]];
      if l < heapLen && Newer(scanners[heap[l]], scanners[heap[big]]) {
        big := l;
      }
      if r < heapLen && Newer(scanners[heap[r]], scanners[heap[big]]) {
        big := r;
      }
      if big != i {
        NewestChild(ss, h, i, big);
      }
    }

    /** `ndb_merger_sift`: repair the heap from the root down. */
    method Sift()
      requires Shape()
      requires HeapButBelow(Scanners(), Live(), 0)
      modifies heap
      ensures Shape() && SameElements(old(Live()), Live())
      ensures Heap(Scanners(), Live())
    {
      ghost var ss := Scanners();
      ghost var start := Live();
      var i := 0;
      while true
        invariant 0 <= i && (heapLen > 0 ==> i < heapLen)
        invariant ss == Scanners()
        invariant SameElements(start, Live())
        invariant Within(Live(), |ss|) && HeapButBelow(ss, Live(), i)
        decreases heapLen - i
      {
        ghost var was := Live();
        var big := NewestOf(i);
        if big == i {
          HeapFromBelow(ss, was, i);
          break;
        }
        SwapDown(ss, was, i, big);
        SwapHeap(i, big);
        SameElementsTrans(start, was, Live());
        i := big;
      }
    }

    /** `ndb_index_merger_add`: start a scan of group `g` at the newest entry
        below `until`. A group with nothing in range never enters the heap. */
    method Add(g: seq<nat>, until: nat) returns (ok: bool)
      requires Valid()
      requires forall i :: 0 <= i < numScanners ==> Scanners()[i].group != g
      modifies this`numScanners, this`heapLen, scanners, heap
      ensures Valid()
      ensures ok <==> old(numScanners) < scanners.Length
      ensures ok ==> numScanners == old(numScanners) + 1
      ensures ok ==> Scanners()[..old(numScanners)] == old(Scanners()) && Scanners()[old(numScanners)].group == g
      ensures ok ==> Rest() == old(Rest()) + Window(table, g, since, until)
      ensures !ok ==> Scanners() == old(Scanners()) && Rest() == old(Rest())
    {
      if numScanners == scanners.Length {
        return false;
      }
      ghost var ss := Scanners();
      ghost var h := Live();
      var i := numScanners;
      var start := CursorStart(table, g, until);
      scanners[i] := scanners[i].(group := g, pos := if start.Some? then start.value else -1);
      numScanners := numScanners + 1;
      var loaded := false;
      if start.Some? {
        loaded := Load(i);
      }
      ghost var s := scanners[i];
      assert Scanners() == ss + [s] && Live() == h;
      PendingAppend(table, since, until, ss, s);
      if loaded {
        Added(table, since, ss, h, s);
        Push(i);
        Reheaped(table, since, ss + [s], h + [i], Live());
      } else {
        StartedOut(table, since, until, g, s.pos);
        Added(table, since, ss, h, s);
      }
      ok := true;
    }

    /** The heap's top after its cursor moved back; 0 when the group is done. */
    method Advance(top: nat) returns (more: bool)
      requires Shape() && heapLen > 0 && top == heap[0]
      requires Loaded(table, since, scanners[top])
      modifies this`heapLen, scanners, heap
      ensures heapLen <= numScanners
      ensures Scanners()[top].group == old(Scanners()[top].group)
      ensures Scanners()[top].pos == old(Scanners()[top].pos) - 1
      ensures Scanners() == old(Scanners())[top := Scanners()[top]]
      ensures if Loaded(table, since, Scanners()[top]) then Live() == old(Live())
              else var s := Scanners()[top]; var h := old(Live());
                   && (s.pos < 0 || table[s.pos].group != s.group || table[s.pos].ts < since)
                   && |Live()| == |h| - 1 && (|Live()| > 0 ==> Live() == h[..|Live()|][0 := h[|Live()|]])
    {
      more := false;
      scanners[top] := scanners[top].(pos := scanners[top].pos - 1);  // MDB_PREV
      if scanners[top].pos >= 0 {
        more := Load(top);
      }
      if !more {
        heapLen := heapLen - 1;
        heap[0] := heap[heapLen];
      }
    }

    /** `ndb_index_merger_next`: deliver the newest pending entry `e` and advance
        the group it came from. */
    method Next() returns (ok: bool, noteKey: nat, ghost e: int)
      requires Valid()
      modifies this`heapLen, scanners, heap
      ensures Valid()
      ensures ok <==> old(Rest()) != {}
      ensures ok ==> e in old(Rest()) && Rest() == old(Rest()) - {e}
      ensures ok ==> 0 <= e < |table| && noteKey == table[e].key
      ensures ok ==> forall f :: f in old(Rest()) ==> 0 <= f < |table| && !NewerEntry(table[f], table[e])
      ensures !ok ==> Rest() == old(Rest())
    {
      ghost var ss := Scanners();
      ghost var h := Live();
      if heapLen == 0 {
        NothingLive(table, since, ss);
        return false, 0, 0;
      }
      var top := heap[0];
      assert top == h[0] && top in h && scanners[top] == ss[top];
      noteKey := scanners[top].noteKey;
      e := scanners[top].pos;
      forall f | f in Pending(table, since, ss) ensures 0 <= f < |table| && !NewerEntry(table[f], table[e]) {
        TopOwesNewest(table, since, ss, h, f);
      }
      var more := Advance(top);
      ghost var g := Live();
      ghost var tt := Scanners();
      Advanced(table, since, ss, h, tt[top], g);
      Sift();
      Reheaped(table, since, tt, g, Live());
      ok := true;
    }
  }
}
