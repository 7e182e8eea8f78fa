/** Recounting a note's reactions and replies from the tag index, and why the
    counters the writer keeps agree with it. */
module Recount {
  import opened LexOrder
  import opened Tables
  import opened Notes
  import opened Database
  import opened Counters
  import M = MetadataRows

  // What is counted for a note: all reactions, those of one kind (`react` turns a
  // reaction's content into its packed form), direct replies, replies in the thread.
  datatype What = Reactions | Emoji(reaction: nat, react: seq<nat> -> nat) | Direct | Thread

  function Width(what: What): (w: nat) ensures w == U16 || w == U32 { if what.Direct? then U16 else U32 }

  /** Does note `n` count for `id`? (the bodies of `ndb_count_replies` and
      `ndb_rebuild_reaction_metadata`) */
  predicate Hit(what: What, n: Note, id: Id)
  {
    match what
    case Reactions => n.body.kind == 7 && LastId(n.body.tags, E) == Some(id)
    case Emoji(reaction, react) =>
      n.body.kind == 7 && LastId(n.body.tags, E) == Some(id) && react(n.body.content) == reaction
    case Direct => n.body.kind == 1 && ReplyTarget(n) == Some(id)
    case Thread => n.body.kind == 1 && Root(n) == Some(id)
  }

  predicate HitAt(db: Db, what: What, e: Entry, id: Id)
  {
    match db.NoteByKey(DupRank(e.key))
    case Some(n) => Hit(what, n, id)
    case None => false
  }

  function Group(id: Id): seq<nat>
  {
    [E] + id
  }

  /** The scan stops at a key too short, or without the id behind the `e`. */
  predicate InScan(e: Entry, id: Id)
  {
    |e.group| >= 33 && e.group[0] == E && e.group[1..33] == id
  }

  function CountFrom(db: Db, what: What, id: Id, p: nat): nat
    decreases |db.tags| - p
  {
    if p >= |db.tags| || !InScan(db.tags[p], id) then 0
    else (if HitAt(db, what, db.tags[p], id) then 1 else 0) + CountFrom(db, what, id, p + 1)
  }

  /** What the recount finds, in a field of the counter's width. */
  function Recounted(db: Db, what: What, id: Id): nat
  {
    CountFrom(db, what, id, SetRange(db.tags, Group(id), 0)) % Width(what)
  }

  lemma WrappedSum(count: nat, hit: nat, rest: nat, w: nat)
    requires w == U16 || w == U32
    ensures ((count + hit) % w + rest) % w == (count + (hit + rest)) % w
  {
  }

  /** `count` so far, with what the scan has still to find, makes the result. */
  ghost predicate Tallied(db: Db, what: What, id: Id, p: nat, count: nat)
  {
    count < Width(what) && (count + CountFrom(db, what, id, p)) % Width(what) == Recounted(db, what, id)
  }

  lemma TallyStep(db: Db, what: What, id: Id, p: nat, count: nat, hit: nat)
    requires Tallied(db, what, id, p, count) && p < |db.tags| && InScan(db.tags[p], id)
    requires hit == if HitAt(db, what, db.tags[p], id) then 1 else 0
    ensures Tallied(db, what, id, p + 1, (count + hit) % Width(what))
  {
    hide HitAt, InScan, Width, SetRange;
    WrappedSum(count, hit, CountFrom(db, what, id, p + 1), Width(what));
  }

  lemma TallyEnds(db: Db, what: What, id: Id, p: nat, count: nat)
    requires Tallied(db, what, id, p, count) && (p >= |db.tags| || !InScan(db.tags[p], id))
    ensures count == Recounted(db, what, id)
  {
    hide InScan, SetRange;
  }

  lemma TallyStarts(db: Db, what: What, id: Id)
    ensures Tallied(db, what, id, SetRange(db.tags, Group(id), 0), 0)
  {
    hide CountFrom, SetRange;
  }

  /** `ndb_count_replies` */
  method CountReplies(db: Db, id: Id) returns (direct: nat, thread: nat)
    ensures direct == Recounted(db, Direct, id) && thread == Recounted(db, Thread, id)
  {
    hide DupRank, SetRange, Group, ReplyFrom, Lookup, InScan, Tallied, CountFrom, Recounted;
    direct, thread := 0, 0;
    var p := SetRange(db.tags, Group(id), 0);
    TallyStarts(db, Direct, id);
    TallyStarts(db, Thread, id);
    while p < |db.tags| && InScan(db.tags[p], id)
      invariant 0 <= p <= |db.tags|
      invariant Tallied(db, Direct, id, p, direct) && Tallied(db, Thread, id, p, thread)
    {
      var isDirect, isThread := 0, 0;
      var note := db.NoteByKey(DupRank(db.tags[p].key));
      if note.Some? && note.value.body.kind == 1 {
        isDirect := if ReplyTarget(note.value) == Some(id) then 1 else 0;
        isThread := if Root(note.value) == Some(id) then 1 else 0;
      }
      TallyStep(db, Direct, id, p, direct, isDirect);
      TallyStep(db, Thread, id, p, thread, isThread);
      direct := (direct + isDirect) % U16;
      thread := (thread + isThread) % U32;
      p := p + 1;
    }
    TallyEnds(db, Direct, id, p, direct);
    TallyEnds(db, Thread, id, p, thread);
  }

  // ---- where the index files a note's tags ----

  /** The groups the tag index files a note's tags under. */
  function FiledGroups(ts: seq<Tag>): set<seq<nat>>
  {
    set e | e in TagEntries(ts, 0, 0) :: e.group
  }

  lemma TagEntryGroups(t: Tag, createdAt: nat, key: nat)
    ensures |TagEntry(t, createdAt, key)| == |TagEntry(t, 0, 0)| <= 1
    ensures |TagEntry(t, 0, 0)| == 1 ==>
      TagEntry(t, createdAt, key) == [Entry(TagEntry(t, 0, 0)[0].group, createdAt % U32, DupRank(key))]
  {
    hide DupRank;
  }

  /** A note's entries differ only in their group. */
  lemma {:induction false} EntriesByGroup(ts: seq<Tag>, createdAt: nat, key: nat)
    ensures |TagEntries(ts, createdAt, key)| == |TagEntries(ts, 0, 0)| <= |ts|
    ensures forall k :: 0 <= k < |TagEntries(ts, 0, 0)| ==>
      TagEntries(ts, createdAt, key)[k] == Entry(TagEntries(ts, 0, 0)[k].group, createdAt % U32, DupRank(key))
    decreases |ts|
  {
    hide DupRank, TagEntry;
    if ts != [] {
      TagEntryGroups(ts[0], createdAt, key);
      EntriesByGroup(ts[1..], createdAt, key);
    }
  }

  lemma FiledIff(ts: seq<Tag>, createdAt: nat, key: nat, e: Entry)
    ensures e in TagEntries(ts, createdAt, key)
       <==> e.group in FiledGroups(ts) && e.ts == createdAt % U32 && e.key == DupRank(key)
  {
    hide DupRank, TagEntries;
    EntriesByGroup(ts, createdAt, key);
    var es, gs := TagEntries(ts, createdAt, key), TagEntries(ts, 0, 0);
    if e in es {
      var k :| 0 <= k < |es| && es[k] == e;
      assert gs[k] in gs;
    }
    if e.group in FiledGroups(ts) && e.ts == createdAt % U32 && e.key == DupRank(key) {
      var f :| f in gs && f.group == e.group;
      var k :| 0 <= k < |gs| && gs[k] == f;
      assert es[k] == e;
    }
  }

  /** The groups of a note that the scan for `id` visits. */
  ghost function ScanGroups(n: Note, id: Id): set<seq<nat>>
  {
    set g | g in FiledGroups(n.body.tags) && Group(id) <= g
  }

  lemma InScanIffPrefix(e: Entry, id: Id)
    ensures InScan(e, id) <==> Group(id) <= e.group
  {
    if InScan(e, id) {
      assert e.group[..33] == [e.group[0]] + e.group[1..33];
    }
    if Group(id) <= e.group {
      assert e.group[1..33] == Group(id)[1..33] == id;
    }
  }

  // ---- where the scan goes ----

  /** Past a string that is not below `g` and does not extend it, nothing extends it. */
  lemma {:induction false} PrefixNeverReturns(g: seq<nat>, a: seq<nat>, b: seq<nat>)
    requires !LexLess(a, g) && !(g <= a) && (LexLess(a, b) || a == b)
    ensures !(g <= b)
    decreases |g|
  {
    if g != [] && a != [] && b != [] && a[0] == g[0] == b[0] {
      assert g <= b ==> g[1..] <= b[1..];
      assert g[1..] <= a[1..] ==> g <= a by {
        assert g == [g[0]] + g[1..] && a == [a[0]] + a[1..];
      }
      PrefixNeverReturns(g[1..], a[1..], b[1..]);
    }
  }

  /** What extends `g` is not below it. */
  lemma {:induction false} ExtensionNotBelow(g: seq<nat>, a: seq<nat>)
    requires g <= a
    ensures !LexLess(a, g)
    decreases |g|
  {
    if g != [] && a != [] {
      ExtensionNotBelow(g[1..], a[1..]);
    }
  }

  lemma GroupsAscend(t: seq<Entry>, p: nat, q: nat)
    requires Sorted(t) && p <= q < |t|
    ensures LexLess(t[p].group, t[q].group) || t[p].group == t[q].group
  {
    if p < q { assert Less(t[p], t[q]); }
  }

  /** Beyond the scan's end the id does not come up again. */
  lemma ScanEnds(t: seq<Entry>, id: Id, p: nat, q: nat)
    requires Sorted(t) && SetRange(t, Group(id), 0) <= p <= q < |t| && !InScan(t[p], id)
    ensures !InScan(t[q], id)
  {
    hide Sorted, SetRange, LexLess, InScan, Group;
    InScanIffPrefix(t[p], id);
    InScanIffPrefix(t[q], id);
    SetRangeSplits(t, Group(id), 0, p);
    GroupsAscend(t, p, q);
    PrefixNeverReturns(Group(id), t[p].group, t[q].group);
  }

  /** The scan starts before all it should find. */
  lemma ScanStarts(t: seq<Entry>, id: Id, q: nat)
    requires Sorted(t) && q < |t| && InScan(t[q], id)
    ensures SetRange(t, Group(id), 0) <= q
  {
    hide Sorted, SetRange, InScan, Group;
    InScanIffPrefix(t[q], id);
    SetRangeSplits(t, Group(id), 0, q);
    ExtensionNotBelow(Group(id), t[q].group);
  }

  // ---- counting positions ----

  ghost function Positions(db: Db, what: What, id: Id, p: nat): set<int>
  {
    set q | p <= q < |db.tags| && InScan(db.tags[q], id) && HitAt(db, what, db.tags[q], id)
  }

  lemma PositionsStep(db: Db, what: What, id: Id, p: nat)
    requires p < |db.tags| && InScan(db.tags[p], id)
    ensures |Positions(db, what, id, p)| == |Positions(db, what, id, p + 1)| + if HitAt(db, what, db.tags[p], id) then 1 else 0
  {
    hide HitAt, InScan;
    var s, s' := Positions(db, what, id, p), Positions(db, what, id, p + 1);
    assert s == if HitAt(db, what, db.tags[p], id) then s' + {p} else s';
  }

  lemma {:induction false} CountIsPositions(db: Db, what: What, id: Id, p: nat)
    requires Sorted(db.tags) && SetRange(db.tags, Group(id), 0) <= p <= |db.tags|
    ensures CountFrom(db, what, id, p) == |Positions(db, what, id, p)|
    decreases |db.tags| - p
  {
    hide Sorted, HitAt, SetRange, InScan, Group;
    if p < |db.tags| && InScan(db.tags[p], id) {
      PositionsStep(db, what, id, p);
      CountIsPositions(db, what, id, p + 1);
    } else {
      forall q | p <= q < |db.tags| ensures !InScan(db.tags[q], id) {
        ScanEnds(db.tags, id, p, q);
      }
      assert Positions(db, what, id, p) == {};
    }
  }

  lemma TagsSorted(db: Db)
    requires Exact(db)
    ensures ExactIndex(db, ByTag) && Sorted(db.tags)
  {
    assert db.Table(ByTag) == db.tags;
  }

  // ---- positions, row by row ----

  /** The row that the entry at a position is for. */
  function RowAtPosition(db: Db, q: int): int
  {
    if 0 <= q < |db.tags| then DupRank(db.tags[q].key) - 1 else -1
  }

  lemma PositionIsRow(db: Db, q: nat)
    requires Exact(db) && Narrow(db) && q < |db.tags|
    ensures var i := RowAtPosition(db, q);
      && 0 <= i < |db.rows| && db.tags[q].group in FiledGroups(db.rows[i].note.body.tags)
      && db.tags[q] == Entry(db.tags[q].group, db.rows[i].note.body.createdAt, DupRank(i + 1))
      && db.NoteByKey(DupRank(db.tags[q].key)) == Some(db.rows[i].note)
  {
    hide DupRank, TagEntries, Sorted, FiledGroups, IdsAreUnique;
    TagsSorted(db);
    var e := db.Table(ByTag)[q];
    assert Indexed(db.rows, ByTag, e);
    var i :| 0 <= i < |db.rows| && e in Entries(ByTag, db.rows[i].note, db.rows[i].key);
    FiledIff(db.rows[i].note.body.tags, db.rows[i].note.body.createdAt, db.rows[i].key, e);
    DupRankInvolution(i + 1);
    LookupConsecutive(db.rows, 0, i + 1);
  }

  lemma GroupHasPosition(db: Db, i: nat, g: seq<nat>) returns (q: nat)
    requires Exact(db) && Narrow(db) && i < |db.rows| && g in FiledGroups(db.rows[i].note.body.tags)
    ensures q < |db.tags| && db.tags[q] == Entry(g, db.rows[i].note.body.createdAt, DupRank(i + 1))
    ensures RowAtPosition(db, q) == i
  {
    hide DupRank, TagEntries, Sorted, FiledGroups, IdsAreUnique;
    TagsSorted(db);
    var e := Entry(g, db.rows[i].note.body.createdAt, DupRank(i + 1));
    FiledIff(db.rows[i].note.body.tags, db.rows[i].note.body.createdAt, db.rows[i].key, e);
    assert e in Entries(ByTag, db.rows[i].note, db.rows[i].key);
    assert Indexed(db.rows, ByTag, e);
    q :| 0 <= q < |db.Table(ByTag)| && db.Table(ByTag)[q] == e;
    DupRankInvolution(i + 1);
  }

  lemma {:induction false} SameSize<T>(a: set<int>, b: set<T>, f: int -> T)
    requires forall x :: x in a ==> f(x) in b
    requires forall x, y :: x in a && y in a && f(x) == f(y) ==> x == y
    requires forall y :: y in b ==> exists x :: x in a && f(x) == y
    ensures |a| == |b|
    decreases |a|
  {
    if x :| x in a {
      SameSize(a - {x}, b - {f(x)}, f);
    } else {
      assert forall x :: x in a ==> false;
      assert forall y :: y in b ==> false;
      NoElements(a);
      NoElements(b);
    }
  }

  lemma NoElements<T>(s: set<T>)
    requires forall x :: x in s ==> false
    ensures |s| == 0
  {
    assert forall x :: x in s ==> false;
    assert s == {};
  }

  ghost function PositionsOfRow(db: Db, id: Id, i: int): set<int>
  {
    set q | 0 <= q < |db.tags| && InScan(db.tags[q], id) && RowAtPosition(db, q) == i
  }

  function GroupAt(db: Db, q: int): seq<nat>
  {
    if 0 <= q < |db.tags| then db.tags[q].group else []
  }

  /** A row is visited once for each of its groups under the id. */
  lemma RowIsVisited(db: Db, id: Id, i: nat)
    requires Exact(db) && Narrow(db) && i < |db.rows|
    ensures |PositionsOfRow(db, id, i)| == |ScanGroups(db.rows[i].note, id)|
  {
    hide Exact, Narrow, InScan, RowAtPosition, DupRank, Sorted, FiledGroups, Group;
    TagsSorted(db);
    var a, b := PositionsOfRow(db, id, i), ScanGroups(db.rows[i].note, id);
    var f := (q: int) => GroupAt(db, q);
    forall q | q in a ensures f(q) in b {
      PositionIsRow(db, q);
      InScanIffPrefix(db.tags[q], id);
    }
    forall q, r | q in a && r in a && f(q) == f(r) ensures q == r {
      PositionIsRow(db, q);
      PositionIsRow(db, r);
      SortedDistinct(db.tags, q, r);
    }
    forall g | g in b ensures exists q :: q in a && f(q) == g {
      var q := GroupHasPosition(db, i, g);
      InScanIffPrefix(db.tags[q], id);
      assert q in a && f(q) == g;
    }
    SameSize(a, b, f);
  }

  /** What one note adds to a recount. */
  ghost function Found(what: What, n: Note, id: Id): nat
  {
    if Hit(what, n, id) then |ScanGroups(n, id)| else 0
  }

  ghost function FoundIn(rows: seq<Row>, what: What, id: Id): nat
  {
    if rows == [] then 0 else FoundIn(rows[..|rows| - 1], what, id) + Found(what, rows[|rows| - 1].note, id)
  }

  ghost function PositionsBelow(db: Db, what: What, id: Id, k: int): set<int>
  {
    set q | 0 <= q < |db.tags| && InScan(db.tags[q], id) && HitAt(db, what, db.tags[q], id) && RowAtPosition(db, q) < k
  }

  lemma BelowSplits(db: Db, what: What, id: Id, k: nat, hit: bool)
    requires forall q :: 0 <= q < |db.tags| && RowAtPosition(db, q) == k ==> HitAt(db, what, db.tags[q], id) == hit
    ensures PositionsBelow(db, what, id, k + 1)
      == PositionsBelow(db, what, id, k) + if hit then PositionsOfRow(db, id, k) else {}
    ensures PositionsBelow(db, what, id, k) !! PositionsOfRow(db, id, k)
  {
    hide InScan, RowAtPosition, HitAt;
  }

  lemma BelowStep(db: Db, what: What, id: Id, k: nat)
    requires Exact(db) && Narrow(db) && k < |db.rows|
    ensures |PositionsBelow(db, what, id, k + 1)| == |PositionsBelow(db, what, id, k)| + Found(what, db.rows[k].note, id)
  {
    hide Exact, Narrow, InScan, RowAtPosition, Hit, DupRank, ScanGroups, PositionsBelow, PositionsOfRow;
    RowIsVisited(db, id, k);
    forall q | 0 <= q < |db.tags| && RowAtPosition(db, q) == k
      ensures HitAt(db, what, db.tags[q], id) == Hit(what, db.rows[k].note, id)
    {
      PositionIsRow(db, q);
    }
    BelowSplits(db, what, id, k, Hit(what, db.rows[k].note, id));
  }

  lemma {:induction false} BelowIsFound(db: Db, what: What, id: Id, k: nat)
    requires Exact(db) && Narrow(db) && k <= |db.rows|
    ensures |PositionsBelow(db, what, id, k)| == FoundIn(db.rows[..k], what, id)
    decreases k
  {
    hide Exact, Narrow, PositionsBelow, Found;
    if k == 0 {
      NothingBelow(db, what, id);
    } else {
      BelowIsFound(db, what, id, k - 1);
      BelowStep(db, what, id, k - 1);
      assert db.rows[..k][..k - 1] == db.rows[..k - 1];
    }
  }

  lemma NothingBelow(db: Db, what: What, id: Id)
    requires Exact(db) && Narrow(db)
    ensures |PositionsBelow(db, what, id, 0)| == 0
  {
    forall q | 0 <= q < |db.tags| ensures RowAtPosition(db, q) >= 0 {
      PositionIsRow(db, q);
    }
    assert PositionsBelow(db, what, id, 0) == {};
  }

  /** The recount finds, for each row that counts, every group it has under the id. */
  lemma RecountIsSum(db: Db, what: What, id: Id)
    requires Exact(db) && Narrow(db)
    ensures Recounted(db, what, id) == FoundIn(db.rows, what, id) % Width(what)
  {
    hide Exact, Narrow, HitAt, InScan, SetRange, Width, CountFrom, RowAtPosition, FoundIn, Sorted;
    TagsSorted(db);
    var start := SetRange(db.tags, Group(id), 0);
    CountIsPositions(db, what, id, start);
    forall q | 0 <= q < |db.tags| ensures RowAtPosition(db, q) < |db.rows| && (InScan(db.tags[q], id) ==> start <= q) {
      PositionIsRow(db, q);
      if InScan(db.tags[q], id) { ScanStarts(db.tags, id, q); }
    }
    assert Positions(db, what, id, start) == PositionsBelow(db, what, id, |db.rows|);
    BelowIsFound(db, what, id, |db.rows|);
    assert db.rows[..|db.rows|] == db.rows;
  }

  // ---- the counters kept online ----

  function KeyOf(what: What): M.SortKey
  {
    if what.Emoji? then M.SortKey(M.REACTION, what.reaction) else M.SortKey(M.COUNTS, 0)
  }

  function CountOf(e: M.Entry, what: What): nat
  {
    match what
    case Emoji(_, _) => if e.Reaction? then e.count else 0
    case Reactions => if e.Counts? then e.total else 0
    case Direct => if e.Counts? then e.direct else 0
    case Thread => if e.Counts? then e.thread else 0
  }

  /** A counter as a metadata row has it. */
  function Kept(ms: Metas, what: What, id: Id): nat
  {
    match M.Lookup(RowAt(ms, id), KeyOf(what))
    case None => 0
    case Some(e) => CountOf(e, what)
  }

  predicate Moves(c: Change, what: What)
  {
    match what
    case Emoji(reaction, _) => c == AddReaction(reaction)
    case Reactions => c.AddTotal?
    case Direct => c.AddDirect?
    case Thread => c.AddThread?
  }

  /** Reactions are told apart as the writer does it. */
  ghost predicate Told(what: What, react: seq<nat> -> nat)
  {
    what.Emoji? ==> what.react == react
  }

  ghost predicate Tidy(ms: Metas)
  {
    && (forall id :: M.Ordered(RowAt(ms, id)))
    && (forall id, what :: Kept(ms, what, id) < Width(what))
  }

  lemma BumpMoves(ms: Metas, to: Id, c: Change, what: What, id: Id)
    requires M.Ordered(RowAt(ms, to)) && Kept(ms, what, id) < Width(what)
    ensures Kept(Bump(ms, to, c), what, id) ==
      (Kept(ms, what, id) + if to == id && Moves(c, what) then 1 else 0) % Width(what)
  {
    hide M.Ordered, M.Lookup, Bumped;
    BumpedUpdates(RowAt(ms, to), c, KeyOf(what));
    LookupKey(RowAt(ms, to), KeyOf(what));
    LookupKey(RowAt(ms, to), KeyFor(c));
  }

  lemma BumpTidy(ms: Metas, to: Id, c: Change)
    requires Tidy(ms)
    ensures Tidy(Bump(ms, to, c))
  {
    forall id ensures M.Ordered(RowAt(Bump(ms, to, c), id)) {
      assert M.Ordered(RowAt(ms, id)) && M.Ordered(RowAt(ms, to));
      BumpedOrdered(RowAt(ms, to), c);
    }
    forall id, what ensures Kept(Bump(ms, to, c), what, id) < Width(what) {
      assert Kept(ms, what, id) < Width(what) && M.Ordered(RowAt(ms, to));
      BumpMoves(ms, to, c, what, id);
    }
  }

  /** How often a list of changes moves a counter. */
  function Moved(cs: seq<(Id, Change)>, what: What, id: Id): nat
  {
    if cs == [] then 0
    else (if cs[0].0 == id && Moves(cs[0].1, what) then 1 else 0) + Moved(cs[1..], what, id)
  }

  lemma {:induction false} BumpAllTidy(ms: Metas, cs: seq<(Id, Change)>)
    requires Tidy(ms)
    ensures Tidy(BumpAll(ms, cs))
    decreases |cs|
  {
    hide Tidy, Bump;
    if cs != [] {
      BumpTidy(ms, cs[0].0, cs[0].1);
      BumpAllTidy(Bump(ms, cs[0].0, cs[0].1), cs[1..]);
    }
  }

  lemma TidyAt(ms: Metas, id: Id, what: What)
    requires Tidy(ms)
    ensures M.Ordered(RowAt(ms, id)) && Kept(ms, what, id) < Width(what)
  {
  }

  lemma BumpAllCons(ms: Metas, cs: seq<(Id, Change)>, what: What, id: Id)
    requires cs != []
    ensures BumpAll(ms, cs) == BumpAll(Bump(ms, cs[0].0, cs[0].1), cs[1..])
    ensures Moved(cs, what, id) == (if cs[0].0 == id && Moves(cs[0].1, what) then 1 else 0) + Moved(cs[1..], what, id)
  {
    hide Bump, Moves;
  }

  lemma {:induction false} BumpAllMoves(ms: Metas, cs: seq<(Id, Change)>, what: What, id: Id)
    requires Tidy(ms)
    ensures Kept(BumpAll(ms, cs), what, id) == (Kept(ms, what, id) + Moved(cs, what, id)) % Width(what)
    decreases |cs|
  {
    hide Tidy, Kept, Bump, Moves, M.Ordered, Width;
    TidyAt(ms, id, what);
    if cs == [] {
      SmallStays(Kept(ms, what, id), what);
    } else {
      hide BumpAll, Moved;
      var ms1 := Bump(ms, cs[0].0, cs[0].1);
      TidyAt(ms, cs[0].0, what);
      BumpTidy(ms, cs[0].0, cs[0].1);
      BumpMoves(ms, cs[0].0, cs[0].1, what, id);
      BumpAllMoves(ms1, cs[1..], what, id);
      BumpAllCons(ms, cs, what, id);
      WrappedSum(Kept(ms, what, id), if cs[0].0 == id && Moves(cs[0].1, what) then 1 else 0, Moved(cs[1..], what, id), Width(what));
    }
  }

  lemma SmallStays(k: nat, what: What)
    requires k < Width(what)
    ensures k % Width(what) == k
  {
  }

  /** Does note `n` count for `id` as it is written? Kind 30023 replies too. */
  predicate Counts(what: What, n: Note, id: Id)
  {
    Hit(what, n, id)
    || (n.body.kind == 30023 && ((what.Direct? && ReplyTarget(n) == Some(id)) || (what.Thread? && Root(n) == Some(id))))
  }

  /** A note moves exactly the counters it counts for, by one. */
  lemma ChangesMove(react: seq<nat> -> nat, n: Note, what: What, id: Id)
    requires Told(what, react)
    ensures Moved(Changes(react, n), what, id) == if Counts(what, n, id) then 1 else 0
  {
    hide FirstId, LastId, ReplyFrom, One;
    var ts := n.body.tags;
    if n.body.kind == 1 || n.body.kind == 30023 {
      var a, b, c := One(FirstId(ts, Q), AddQuote), One(ReplyTarget(n), AddDirect), One(Root(n), AddThread);
      MovedSplits(a + b, c, what, id);
      MovedSplits(a, b, what, id);
      MovedOne(FirstId(ts, Q), AddQuote, what, id);
      MovedOne(ReplyTarget(n), AddDirect, what, id);
      MovedOne(Root(n), AddThread, what, id);
    } else if n.body.kind == 7 {
      var liked := LastId(ts, E);
      MovedSplits(One(liked, AddReaction(react(n.body.content))), One(liked, AddTotal), what, id);
      MovedOne(liked, AddReaction(react(n.body.content)), what, id);
      MovedOne(liked, AddTotal, what, id);
    } else {
      MovedOne(FirstId(ts, E), AddRepost, what, id);
    }
  }

  lemma MovedOne(to: Option<Id>, c: Change, what: What, id: Id)
    ensures Moved(One(to, c), what, id) == if to == Some(id) && Moves(c, what) then 1 else 0
    ensures Moved([], what, id) == 0
  {
    if to.Some? { assert One(to, c)[1..] == []; }
  }

  lemma {:induction false} MovedSplits(a: seq<(Id, Change)>, b: seq<(Id, Change)>, what: What, id: Id)
    ensures Moved(a + b, what, id) == Moved(a, what, id) + Moved(b, what, id)
    decreases |a|
  {
    if a == [] {
      assert a + b == b;
    } else {
      assert (a + b)[1..] == a[1..] + b;
      MovedSplits(a[1..], b, what, id);
    }
  }

  // ---- writing notes ----

  datatype World = World(db: Db, metas: Metas)

  /** `ndb_write_note` with its counting: a note whose id is stored already is
      neither stored nor counted. */
  function Write(react: seq<nat> -> nat, w: World, n: Note): World
  {
    World(WriteNote(w.db, Msg(n, 0)).db,
          if KeyById(w.db, n.id) == 0 then BumpAll(w.metas, Changes(react, n)) else w.metas)
  }

  function WriteAll(react: seq<nat> -> nat, w: World, notes: seq<Note>): World
    decreases |notes|
  {
    if notes == [] then w else WriteAll(react, Write(react, w, notes[0]), notes[1..])
  }

  function CountedIn(rows: seq<Row>, what: What, id: Id): nat
  {
    if rows == [] then 0
    else CountedIn(rows[..|rows| - 1], what, id) + if Counts(what, rows[|rows| - 1].note, id) then 1 else 0
  }

  ghost predicate WorldInv(react: seq<nat> -> nat, committed: Id -> Body, w: World)
  {
    && WriterInv(committed, Writer(w.db, [])) && Tidy(w.metas)
    && forall what, id :: Told(what, react) ==> Kept(w.metas, what, id) == CountedIn(w.db.rows, what, id) % Width(what)
  }

  lemma CountedGrows(rows: seq<Row>, row: Row, what: What, id: Id)
    ensures CountedIn(rows + [row], what, id) == CountedIn(rows, what, id) + if Counts(what, row.note, id) then 1 else 0
  {
    assert (rows + [row])[..|rows|] == rows;
  }

  lemma WriteKeepsInv(react: seq<nat> -> nat, committed: Id -> Body, w: World, n: Note)
    requires WorldInv(react, committed, w) && |w.db.rows| + 1 < U32 && Honest(committed, n) && !n.rumor
    ensures WorldInv(react, committed, Write(react, w, n))
    ensures |Write(react, w, n).db.rows| <= |w.db.rows| + 1
  {
    hide WriteNote, Exact, Narrow, KeyById, Kept, Counts, CountedIn, Tidy, Width;
    var w' := Write(react, w, n);
    WriteExtends(committed, w.db, Msg(n, 0));
    WriteShape(w.db, Msg(n, 0));
    NarrowStays(committed, w.db, w'.db);
    BumpAllTidy(w.metas, Changes(react, n));
    forall what, id | Told(what, react) ensures Kept(w'.metas, what, id) == CountedIn(w'.db.rows, what, id) % Width(what) {
      assert Kept(w.metas, what, id) == CountedIn(w.db.rows, what, id) % Width(what);
      if KeyById(w.db, n.id) == 0 {
        BumpAllMoves(w.metas, Changes(react, n), what, id);
        ChangesMove(react, n, what, id);
        CountedGrows(w.db.rows, Row(|w.db.rows| + 1, n), what, id);
        WidthWraps(CountedIn(w.db.rows, what, id), if Counts(what, n, id) then 1 else 0, what);
      }
    }
  }

  lemma WidthWraps(count: nat, more: nat, what: What)
    ensures (count % Width(what) + more) % Width(what) == (count + more) % Width(what)
  {
  }

  lemma NarrowStays(committed: Id -> Body, db: Db, db': Db)
    requires Narrow(db) && |db'.rows| <= |db.rows| + 1 && |db.rows| + 1 < U32
    requires forall i :: 0 <= i < |db'.rows| ==> Honest(committed, db'.rows[i].note)
    ensures Narrow(db')
  {
  }

  ghost predicate Plain(committed: Id -> Body, notes: seq<Note>)
  {
    forall i :: 0 <= i < |notes| ==> Honest(committed, notes[i]) && !notes[i].rumor
  }

  lemma {:induction false} WriteAllKeepsInv(react: seq<nat> -> nat, committed: Id -> Body, w: World, notes: seq<Note>)
    requires WorldInv(react, committed, w) && |w.db.rows| + |notes| < U32 && Plain(committed, notes)
    ensures WorldInv(react, committed, WriteAll(react, w, notes))
    decreases |notes|
  {
    hide WorldInv, Honest;
    if notes != [] {
      WriteKeepsInv(react, committed, w, notes[0]);
      WriteAllKeepsInv(react, committed, Write(react, w, notes[0]), notes[1..]);
    }
  }

  lemma NothingKept(what: What, id: Id)
    ensures Kept(map[], what, id) == 0 && CountedIn([], what, id) == 0
  {
  }

  lemma EmptyWorld(react: seq<nat> -> nat, committed: Id -> Body)
    ensures WorldInv(react, committed, World(EMPTY, map[]))
  {
    EmptyIsExact();
    hide Exact, Narrow;
    forall what, id ensures Kept(map[], what, id) == CountedIn([], what, id) % Width(what) {
      NothingKept(what, id);
    }
    forall what, id ensures Kept(map[], what, id) < Width(what) {
      NothingKept(what, id);
    }
  }

  /** After any sequence of first-time writes, duplicates included: the counter kept
      for an id is the number of stored notes that count for it, and the recount is the
      number of index entries under it of stored notes that count for it. */
  lemma KeptAndRecounted(react: seq<nat> -> nat, committed: Id -> Body, notes: seq<Note>, what: What, id: Id)
    requires |notes| < U32 && Plain(committed, notes) && Told(what, react)
    ensures var w := WriteAll(react, World(EMPTY, map[]), notes);
      && Kept(w.metas, what, id) == CountedIn(w.db.rows, what, id) % Width(what)
      && Recounted(w.db, what, id) == FoundIn(w.db.rows, what, id) % Width(what)
  {
    hide Honest, Kept, Recounted, Exact, Narrow, CountedIn, FoundIn, Width, Tidy, WriteAll;
    EmptyWorld(react, committed);
    WriteAllKeepsInv(react, committed, World(EMPTY, map[]), notes);
    RecountIsSum(WriteAll(react, World(EMPTY, map[]), notes).db, what, id);
  }

  // ---- what counts, by the references of a note ----

  function ChangeOf(what: What): Change
  {
    match what
    case Reactions => AddTotal
    case Emoji(reaction, _) => AddReaction(reaction)
    case Direct => AddDirect
    case Thread => AddThread
  }

  /** A note counts for the last or the heeded references it has. */
  lemma CountsIffGains(react: seq<nat> -> nat, what: What, n: Note, id: Id)
    requires Told(what, react)
    ensures Counts(what, n, id) <==> Gains(react, n, id, ChangeOf(what))
    ensures Hit(what, n, id) <==> Gains(react, n, id, ChangeOf(what)) && n.body.kind != 30023
  {
    hide LastId, References, Root, ReplyTarget, Heeded;
    RepliesGoByReference(n);
    LastIdIsLast(n.body.tags, E);
  }

  lemma KeptIsCounter(ms: Metas, what: What, id: Id)
    ensures Kept(ms, what, id) == CounterAt(ms, id, ChangeOf(what)) && Width(what) == Limit(ChangeOf(what))
  {
    hide M.Lookup, RowAt;
    var row := RowAt(ms, id);
    ValueIsLookup(row, ChangeOf(what));
    LookupKey(row, KeyOf(what));
  }

  /** One write, on the rows: a note not stored before moves the counters of exactly those
      ids its references count for, by one. */
  lemma WriteGains(react: seq<nat> -> nat, w: World, n: Note, what: What, id: Id)
    requires Tidy(w.metas) && KeyById(w.db, n.id) == 0 && Told(what, react)
    ensures CounterAt(Write(react, w, n).metas, id, ChangeOf(what))
      == (CounterAt(w.metas, id, ChangeOf(what)) + if Gains(react, n, id, ChangeOf(what)) then 1 else 0) % Limit(ChangeOf(what))
  {
    hide Tidy, WriteNote, KeyById, Counts, Gains, CounterAt, Limit, Kept;
    BumpAllMoves(w.metas, Changes(react, n), what, id);
    ChangesMove(react, n, what, id);
    CountsIffGains(react, what, n, id);
    KeptIsCounter(w.metas, what, id);
    KeptIsCounter(Write(react, w, n).metas, what, id);
  }

  // ---- when the two agree ----

  /** Note `n` is counted alike online and offline: long-form notes do not reply, and
      what counts for an id is filed under it exactly once. */
  ghost predicate CountedAlike(n: Note)
  {
    && (n.body.kind == 30023 ==> ReplyTarget(n).None? && Root(n).None?)
    && forall what, id :: Hit(what, n, id) ==> |ScanGroups(n, id)| == 1
  }

  ghost predicate AllAlike(rows: seq<Row>)
  {
    forall i :: 0 <= i < |rows| ==> CountedAlike(rows[i].note)
  }

  lemma {:induction false} AlikeSums(rows: seq<Row>, what: What, id: Id)
    requires AllAlike(rows)
    ensures CountedIn(rows, what, id) == FoundIn(rows, what, id)
    decreases |rows|
  {
    hide Hit, ScanGroups;
    if rows != [] {
      assert CountedAlike(rows[|rows| - 1].note);
      AlikeSums(rows[..|rows| - 1], what, id);
    }
  }

  lemma WriteStaysAlike(committed: Id -> Body, react: seq<nat> -> nat, w: World, n: Note)
    requires WorldInv(react, committed, w) && Honest(committed, n) && !n.rumor
    requires AllAlike(w.db.rows) && CountedAlike(n)
    ensures AllAlike(Write(react, w, n).db.rows)
  {
    hide WriteNote, Exact, Narrow, KeyById, CountedAlike, Tidy, Kept, CountedIn;
    WriteShape(w.db, Msg(n, 0));
  }

  lemma {:induction false} WriteAllStaysAlike(react: seq<nat> -> nat, committed: Id -> Body, w: World, notes: seq<Note>)
    requires WorldInv(react, committed, w) && |w.db.rows| + |notes| < U32 && Plain(committed, notes)
    requires AllAlike(w.db.rows) && forall i :: 0 <= i < |notes| ==> CountedAlike(notes[i])
    ensures AllAlike(WriteAll(react, w, notes).db.rows)
    decreases |notes|
  {
    hide WorldInv, Honest, CountedAlike, AllAlike;
    if notes != [] {
      WriteKeepsInv(react, committed, w, notes[0]);
      WriteStaysAlike(committed, react, w, notes[0]);
      WriteAllStaysAlike(react, committed, Write(react, w, notes[0]), notes[1..]);
    }
  }

  /** After any sequence of first-time writes of notes counted alike, duplicates
      included, the counters kept online for every id are what a recount finds. */
  lemma CountersEqualRecount(react: seq<nat> -> nat, committed: Id -> Body, notes: seq<Note>, what: What, id: Id)
    requires |notes| < U32 && Plain(committed, notes) && Told(what, react)
    requires forall i :: 0 <= i < |notes| ==> CountedAlike(notes[i])
    ensures var w := WriteAll(react, World(EMPTY, map[]), notes);
      Kept(w.metas, what, id) == Recounted(w.db, what, id)
  {
    hide Kept, Recounted, CountedAlike, CountedIn, FoundIn, Width, WriteAll, WorldInv, Plain;
    KeptAndRecounted(react, committed, notes, what, id);
    EmptyWorld(react, committed);
    WriteAllStaysAlike(react, committed, World(EMPTY, map[]), notes);
    AlikeSums(WriteAll(react, World(EMPTY, map[]), notes).db.rows, what, id);
  }

  // ---- one note: exactly when ----

  lemma {:induction false} FiledAtMost(ts: seq<Tag>)
    ensures |FiledGroups(ts)| <= |ts|
    decreases |ts|
  {
    hide TagEntry;
    if ts == [] {
      NoElements(FiledGroups(ts));
    } else {
      var first, rest := TagEntries([ts[0]], 0, 0), FiledGroups(ts[1..]);
      TagEntryGroups(ts[0], 0, 0);
      FiledAtMost(ts[1..]);
      if TagEntry(ts[0], 0, 0) == [] {
        assert FiledGroups(ts) == rest;
      } else {
        assert FiledGroups(ts) == rest + {TagEntry(ts[0], 0, 0)[0].group};
      }
    }
  }

  lemma ScannedAtMost(n: Note, id: Id)
    ensures |ScanGroups(n, id)| <= |n.body.tags|
  {
    hide FiledGroups;
    FiledAtMost(n.body.tags);
    Fewer(ScanGroups(n, id), FiledGroups(n.body.tags));
  }

  lemma {:induction false} Fewer<T>(a: set<T>, b: set<T>)
    requires a <= b
    ensures |a| <= |b|
    decreases |a|
  {
    if x :| x in a {
      Fewer(a - {x}, b - {x});
    }
  }

  lemma OneNote(react: seq<nat> -> nat, n: Note, what: What, id: Id)
    requires Told(what, react)
    requires n.body.createdAt < U32 && n.body.kind < U32 && !n.rumor && |n.body.tags| < U16
    ensures var w := Write(react, World(EMPTY, map[]), n);
      && Kept(w.metas, what, id) == (if Counts(what, n, id) then 1 else 0)
      && Recounted(w.db, what, id) == Found(what, n, id)
  {
    hide WriteNote, Kept, Recounted, Counts, Hit, ScanGroups;
    var w := Write(react, World(EMPTY, map[]), n);
    KeptAndRecounted(react, _ => n.body, [n], what, id);
    EmptyIsExact();
    WriteShape(EMPTY, Msg(n, 0));
    KeyByIdExact(EMPTY, n.id);
    assert w == WriteAll(react, World(EMPTY, map[]), [n]);
    assert w.db.rows == [] + [Row(1, n)] == [Row(1, n)];
    OneRow(Row(1, n), what, id);
    ScannedAtMost(n, id);
    SmallUnwrapped(if Counts(what, n, id) then 1 else 0, what);
    SmallUnwrapped(Found(what, n, id), what);
  }

  lemma OneRow(row: Row, what: What, id: Id)
    ensures CountedIn([row], what, id) == if Counts(what, row.note, id) then 1 else 0
    ensures FoundIn([row], what, id) == Found(what, row.note, id)
  {
    hide Counts, Found;
    assert [row][..0] == [];
  }

  lemma SmallUnwrapped(count: nat, what: What)
    requires count < U16
    ensures count % Width(what) == count
  {
  }

  /** For a store holding a single note, recount and counters agree on every id if and
      only if the note is counted alike. */
  lemma AgreeIff(react: seq<nat> -> nat, n: Note)
    requires n.body.createdAt < U32 && n.body.kind < U32 && !n.rumor && |n.body.tags| < U16
    ensures var w := Write(react, World(EMPTY, map[]), n);
      (forall what, id :: Told(what, react) ==> Kept(w.metas, what, id) == Recounted(w.db, what, id)) <==> CountedAlike(n)
  {
    hide Write, Kept, Recounted, Root, ReplyTarget, ScanGroups, LastId;
    forall what, id | Told(what, react)
      ensures Kept(Write(react, World(EMPTY, map[]), n).metas, what, id) == (if Counts(what, n, id) then 1 else 0)
      ensures Recounted(Write(react, World(EMPTY, map[]), n).db, what, id) == Found(what, n, id)
    {
      OneNote(react, n, what, id);
    }
    if n.body.kind == 30023 && ReplyTarget(n).Some? {
      assert Counts(Direct, n, ReplyTarget(n).value) && Found(Direct, n, ReplyTarget(n).value) == 0;
    } else if n.body.kind == 30023 && Root(n).Some? {
      assert Counts(Thread, n, Root(n).value) && Found(Thread, n, Root(n).value) == 0;
    } else {
      forall what, id ensures Counts(what, n, id) <==> Hit(what, n, id) {
      }
      forall what, id | Hit(what, n, id) ensures exists told :: Told(told, react) && Hit(told, n, id) {
        assert Told(if Told(what, react) then what else Reactions, react);
        assert Hit(if Told(what, react) then what else Reactions, n, id);
      }
    }
  }

  // ---- a condition on the tags alone ----

  ghost predicate Mentions(ts: seq<Tag>, id: Id)
  {
    exists i :: 0 <= i < |ts| && Refers(ts[i], E) && ts[i][1].id == id
  }

  lemma {:induction false} LastIdMentions(ts: seq<Tag>, id: Id)
    requires LastId(ts, E) == Some(id)
    ensures Mentions(ts, id)
    decreases |ts|
  {
    if !Refers(ts[|ts| - 1], E) {
      LastIdMentions(ts[..|ts| - 1], id);
      var i :| 0 <= i < |ts| - 1 && Refers(ts[..|ts| - 1][i], E) && ts[..|ts| - 1][i][1].id == id;
      assert Refers(ts[i], E);
    }
  }

  /** What a reply parser holds came from a tag or was there before. */
  lemma {:induction false} ReplyMentions(r: Reply, ts: seq<Tag>, id: Id)
    ensures ReplyFrom(r, ts).root == Some(id) ==> r.root == Some(id) || Mentions(ts, id)
    ensures ReplyFrom(r, ts).reply == Some(id) ==> r.reply == Some(id) || Mentions(ts, id)
    decreases |ts|
  {
    if ts != [] && !(r.root.Some? && r.reply.Some? && r.mention.Some?) {
      var r' := if Refers(ts[0], E) then ReplyTag(r, ts[0]) else r;
      ReplyMentions(r', ts[1..], id);
      MentionsTail(ts, id);
    }
  }

  lemma MentionsTail(ts: seq<Tag>, id: Id)
    requires ts != []
    ensures Mentions(ts[1..], id) ==> Mentions(ts, id)
    ensures Refers(ts[0], E) && ts[0][1].id == id ==> Mentions(ts, id)
  {
    if Mentions(ts[1..], id) {
      var i :| 0 <= i < |ts[1..]| && Refers(ts[1..][i], E) && ts[1..][i][1].id == id;
      assert Refers(ts[i + 1], E);
    }
  }

  lemma HitMentions(what: What, n: Note, id: Id)
    requires Hit(what, n, id)
    ensures Mentions(n.body.tags, id)
  {
    if what.Reactions? || what.Emoji? {
      LastIdMentions(n.body.tags, id);
    } else {
      ReplyMentions(NO_REPLY, n.body.tags, id);
    }
  }

  /** A value as it is indexed, its length cast to a byte. */
  function Cut(val: seq<nat>): seq<nat>
  {
    val[..|val| % 256]
  }

  function CutOf(t: Tag): seq<nat>
  {
    if |t| >= 2 then Cut(t[1].Bytes()) else []
  }

  /** Tag `t` files a value under `e` that is longer than `id` and starts with it. */
  predicate Overhangs(t: Tag, id: Id)
  {
    && |t| >= 2 && t[0].CharAt(0) == E && t[0].CharAt(1) == 0
    && 32 < |CutOf(t)| <= 246 && t[1].Bytes()[..32] == id
  }

  lemma TagFilesIn(t: Tag, id: Id, g: seq<nat>)
    requires TagEntry(t, 0, 0) != [] && TagEntry(t, 0, 0)[0].group == g && Group(id) <= g
    ensures g == Group(id) || (Overhangs(t, id) && g == [E] + CutOf(t))
  {
    hide DupRank;
    var val := t[1].Bytes();
    assert g == [t[0].CharAt(0)] + Cut(val);
    assert g[0] == Group(id)[0] == E;
    assert g[1..] == Cut(val) && g[1..33] == Group(id)[1..33] == id;
    assert val[..32] == g[1..33];
    if |Cut(val)| == 32 { assert g == Group(id); }
  }

  lemma OverhangIsFiled(t: Tag, id: Id)
    requires Overhangs(t, id)
    ensures var g := [E] + CutOf(t);
      TagEntry(t, 0, 0) != [] && TagEntry(t, 0, 0)[0].group == g && Group(id) <= g && g != Group(id)
  {
    hide DupRank;
    var val := t[1].Bytes();
    var g := [E] + Cut(val);
    assert val[..32] == Cut(val)[..32];
    assert g[..33] == Group(id);
  }

  lemma {:induction false} FiledComesFrom(ts: seq<Tag>, g: seq<nat>)
    ensures g in FiledGroups(ts) <==> exists i :: 0 <= i < |ts| && TagEntry(ts[i], 0, 0) != [] && TagEntry(ts[i], 0, 0)[0].group == g
    decreases |ts|
  {
    hide TagEntry;
    if ts != [] {
      TagEntryGroups(ts[0], 0, 0);
      FiledComesFrom(ts[1..], g);
      var first, rest := TagEntry(ts[0], 0, 0), TagEntries(ts[1..], 0, 0);
      if g in FiledGroups(ts) {
        var e: Entry :| e in first + rest && e.group == g;
        if e in first {
          assert TagEntry(ts[0], 0, 0)[0].group == g;
        } else {
          assert g in FiledGroups(ts[1..]);
          var i :| 0 <= i < |ts[1..]| && TagEntry(ts[1..][i], 0, 0) != [] && TagEntry(ts[1..][i], 0, 0)[0].group == g;
          assert TagEntry(ts[i + 1], 0, 0)[0].group == g;
        }
      }
      if i :| 0 <= i < |ts| && TagEntry(ts[i], 0, 0) != [] && TagEntry(ts[i], 0, 0)[0].group == g {
        if i == 0 {
          assert first[0] in first + rest;
        } else {
          assert TagEntry(ts[1..][i - 1], 0, 0)[0].group == g;
          assert g in FiledGroups(ts[1..]);
          var e: Entry :| e in rest && e.group == g;
          assert e in first + rest;
        }
      }
    }
  }

  lemma ReferenceIsFiled(t: Tag, id: Id)
    requires Refers(t, E) && t[0].CharAt(1) == 0 && t[1].id == id
    ensures TagEntry(t, 0, 0) != [] && TagEntry(t, 0, 0)[0].group == Group(id)
  {
    assert t[1].Bytes() == id && id[..32] == id;
  }

  /** Some tag is filed under exactly `id`. */
  ghost predicate FiledUnder(ts: seq<Tag>, id: Id)
  {
    exists i :: 0 <= i < |ts| && TagEntry(ts[i], 0, 0) != [] && TagEntry(ts[i], 0, 0)[0].group == Group(id)
  }

  /** The index has one group of the note's tags under `id`: `id` itself and no value
      that overhangs it, or else one value that does. */
  ghost predicate OnceUnder(ts: seq<Tag>, id: Id)
  {
    && (FiledUnder(ts, id) <==> forall i :: 0 <= i < |ts| ==> !Overhangs(ts[i], id))
    && forall i, j :: 0 <= i < |ts| && 0 <= j < |ts| && Overhangs(ts[i], id) && Overhangs(ts[j], id) ==>
         CutOf(ts[i]) == CutOf(ts[j])
  }

  /** The groups scanned under `id` are `id`'s own and those of the values that overhang it. */
  lemma ScannedIff(n: Note, id: Id, g: seq<nat>)
    ensures g in ScanGroups(n, id)
       <==> (g == Group(id) && FiledUnder(n.body.tags, id))
            || exists i :: 0 <= i < |n.body.tags| && Overhangs(n.body.tags[i], id) && g == [E] + CutOf(n.body.tags[i])
  {
    hide TagEntry, FiledGroups, Group, Overhangs, CutOf;
    var ts := n.body.tags;
    FiledComesFrom(ts, g);
    if g in ScanGroups(n, id) {
      var i :| 0 <= i < |ts| && TagEntry(ts[i], 0, 0) != [] && TagEntry(ts[i], 0, 0)[0].group == g;
      TagFilesIn(ts[i], id, g);
    }
    if i :| 0 <= i < |ts| && Overhangs(ts[i], id) && g == [E] + CutOf(ts[i]) {
      OverhangIsFiled(ts[i], id);
    }
  }

  lemma OneElement<T>(s: set<T>, x: T)
    requires x in s
    ensures |s| == 1 <==> forall y :: y in s ==> y == x
  {
    if |s| == 1 {
      assert |s - {x}| == 0;
      assert forall y :: y in s ==> y in s - {x} || y == x;
    }
    if forall y :: y in s ==> y == x {
      assert s == {x};
    }
  }

  lemma ScannedOnceIff(n: Note, id: Id)
    ensures |ScanGroups(n, id)| == 1 <==> OnceUnder(n.body.tags, id)
  {
    hide FiledUnder, Overhangs, CutOf, ScanGroups, Group;
    var ts, s := n.body.tags, ScanGroups(n, id);
    forall g: seq<nat> ensures g in s
       <==> (g == Group(id) && FiledUnder(ts, id)) || exists i :: 0 <= i < |ts| && Overhangs(ts[i], id) && g == [E] + CutOf(ts[i])
    {
      ScannedIff(n, id, g);
    }
    forall i | 0 <= i < |ts| && Overhangs(ts[i], id) ensures [E] + CutOf(ts[i]) in s && [E] + CutOf(ts[i]) != Group(id) {
      OverhangIsFiled(ts[i], id);
    }
    if FiledUnder(ts, id) {
      OneElement(s, Group(id));
    } else if i :| 0 <= i < |ts| && Overhangs(ts[i], id) {
      OneElement(s, [E] + CutOf(ts[i]));
      SameCuts(ts, id, s, i);
    } else {
      NoElements(s);
    }
  }

  lemma SameCuts(ts: seq<Tag>, id: Id, s: set<seq<nat>>, i: nat)
    requires i < |ts| && Overhangs(ts[i], id)
    requires forall g :: g in s <==> exists j :: 0 <= j < |ts| && Overhangs(ts[j], id) && g == [E] + CutOf(ts[j])
    ensures (forall g :: g in s ==> g == [E] + CutOf(ts[i]))
       <==> forall j, k :: 0 <= j < |ts| && 0 <= k < |ts| && Overhangs(ts[j], id) && Overhangs(ts[k], id) ==>
              CutOf(ts[j]) == CutOf(ts[k])
  {
    hide Overhangs, CutOf;
    var x := CutOf(ts[i]);
    if forall g :: g in s ==> g == [E] + x {
      forall j | 0 <= j < |ts| && Overhangs(ts[j], id) ensures CutOf(ts[j]) == x {
        var y := CutOf(ts[j]);
        assert [E] + y in s;
        assert ([E] + y)[1..] == y && ([E] + x)[1..] == x;
      }
    }
  }

  /** What decides, tag by tag: a note is counted alike if and only if it is no long-form
      reply, and has one group under every id it counts for. */
  lemma TagsDecideIff(n: Note)
    ensures CountedAlike(n)
       <==> (n.body.kind == 30023 ==> ReplyTarget(n).None? && Root(n).None?)
            && forall what, id :: Hit(what, n, id) ==> OnceUnder(n.body.tags, id)
  {
    hide Hit, OnceUnder, ScanGroups, ReplyFrom;
    forall id: Id ensures |ScanGroups(n, id)| == 1 <==> OnceUnder(n.body.tags, id) {
      ScannedOnceIff(n, id);
    }
  }

  /** Every packed name that starts with an `e` is exactly an `e`. */
  ghost predicate PlainNames(ts: seq<Tag>)
  {
    forall i :: 0 <= i < |ts| && Refers(ts[i], E) ==> ts[i][0].CharAt(1) == 0
  }

  /** Where the names are bare, only values that overhang an id count against it. */
  lemma PlainNamesDecide(n: Note, what: What, id: Id)
    requires PlainNames(n.body.tags) && Hit(what, n, id)
    ensures OnceUnder(n.body.tags, id) <==> forall i :: 0 <= i < |n.body.tags| ==> !Overhangs(n.body.tags[i], id)
  {
    hide Hit, Overhangs, TagEntry, CutOf;
    HitMentions(what, n, id);
    var ts := n.body.tags;
    var at :| 0 <= at < |ts| && Refers(ts[at], E) && ts[at][1].id == id;
    ReferenceIsFiled(ts[at], id);
    assert FiledUnder(ts, id);
  }

  lemma LongerIsFiled(t: Tag, x: Id)
    requires t == [Str([E]), Str(x + [7])]
    ensures TagEntry(t, 0, 0) != [] && TagEntry(t, 0, 0)[0].group == Group(x) + [7]
  {
    hide DupRank;
    assert t[0].CharAt(1) == 0;
    assert (x + [7])[..33] == x + [7];
    assert [E] + (x + [7]) == Group(x) + [7];
  }

  lemma TwoFiled(ts: seq<Tag>, x: Id)
    requires ts == [[Str([E]), Str(x + [7])], [Str([E]), PackedId(x)]]
    ensures forall h :: h in FiledGroups(ts) <==> h == Group(x) + [7] || h == Group(x)
  {
    hide TagEntry, FiledGroups, Group;
    LongerIsFiled(ts[0], x);
    ReferenceIsFiled(ts[1], x);
    forall h: seq<nat> ensures h in FiledGroups(ts) <==> h == Group(x) + [7] || h == Group(x) {
      FiledComesFrom(ts, h);
    }
  }

  /** Without that: a reaction to `x` that also has an `e` value one byte longer than
      `x` and starting with it is counted once, and recounted twice. */
  lemma OverhangCountsTwice(react: seq<nat> -> nat, n: Note, x: Id)
    requires n.body.kind == 7 && n.body.createdAt < U32 && !n.rumor
    requires n.body.tags == [[Str([E]), Str(x + [7])], [Str([E]), PackedId(x)]]
    ensures var w := Write(react, World(EMPTY, map[]), n);
      Kept(w.metas, Reactions, x) == 1 && Recounted(w.db, Reactions, x) == 2
  {
    hide Write, Kept, Recounted, FiledGroups, Group;
    OneNote(react, n, Reactions, x);
    TwoFiled(n.body.tags, x);
    var g := Group(x) + [7];
    assert ScanGroups(n, x) == {g, Group(x)};
    assert |g| != |Group(x)|;
  }
}
