/** The plan executors of `ndb_query` and what they answer. */
module Query {
  import opened Basics
  import opened LexOrder
  import opened Tables
  import opened Notes
  import opened Database
  import opened Filters
  import opened Answers
  import opened Merger

  // ---- results ----

  // A result buffer of `capacity` slots and the limit for this filter.
  datatype QueryState = QueryState(capacity: nat, limit: nat)
  {
    function Room(): nat { Filters.Room(capacity, limit) }

    /** `query_is_full` */
    predicate Full(results: seq<nat>)
    {
      if |results| >= capacity then true
      else if limit == 0 then false
      else |results| >= limit
    }
  }

  /** The note key an index entry carries. */
  function NoteKey(w: Which, e: Entry): nat
  {
    if w == ById || w == ByTag then DupRank(e.key) else e.key
  }

  /** The note under an entry exists and passes the rest of the filter. */
  predicate Passes(db: Db, f: Filter, matched: set<Field>, w: Which, e: Entry)
  {
    match db.NoteByKey(NoteKey(w, e))
    case Some(n) => MatchesWith(f, n, matched)
    case None => false
  }

  ghost function Passing(db: Db, f: Filter, matched: set<Field>, w: Which, s: set<int>): set<int>
  {
    set j | j in s && 0 <= j < |db.Table(w)| && Passes(db, f, matched, w, db.Table(w)[j])
  }

  /** `picked` are the newest `room` positions of `s`, newest first. */
  ghost predicate PickedNewest(t: seq<Entry>, s: set<int>, room: nat, picked: seq<int>)
  {
    && (forall j :: j in s ==> 0 <= j < |t|)
    && |picked| <= room
    && (forall i :: 0 <= i < |picked| ==> picked[i] in s)
    && (forall i, j :: 0 <= i < j < |picked| ==> picked[i] != picked[j] && !NewerEntry(t[picked[j]], t[picked[i]]))
    && (forall k :: k in s && k !in picked ==>
          |picked| == room && forall i :: 0 <= i < |picked| ==> !NewerEntry(t[k], t[picked[i]]))
  }

  ghost predicate KeysOf(w: Which, t: seq<Entry>, picked: seq<int>, keys: seq<nat>)
  {
    |keys| == |picked| && forall i :: 0 <= i < |keys| ==> 0 <= picked[i] < |t| && keys[i] == NoteKey(w, t[picked[i]])
  }

  // ---- draining ----

  /** The state of a scan that delivers `s` newest first, part way through. */
  ghost predicate Scanning(t: seq<Entry>, all: set<int>, passing: set<int>, rest: set<int>, room: nat, picked: seq<int>)
  {
    && rest <= all && passing <= all
    && (forall j :: j in all ==> 0 <= j < |t|)
    && |picked| <= room
    && (forall i :: 0 <= i < |picked| ==> picked[i] in passing && picked[i] !in rest)
    && (forall i, j :: 0 <= i < j < |picked| ==> picked[i] != picked[j] && !NewerEntry(t[picked[j]], t[picked[i]]))
    && (forall k, i :: k in rest && 0 <= i < |picked| ==> !NewerEntry(t[k], t[picked[i]]))
    && (forall k :: k in passing ==> k in rest || k in picked)
  }

  /** Delivering the newest remaining entry `e` and keeping it if it passes. */
  lemma ScanStep(t: seq<Entry>, all: set<int>, passing: set<int>, rest: set<int>, room: nat, picked: seq<int>, e: int)
    requires Scanning(t, all, passing, rest, room, picked)
    requires e in rest && forall k :: k in rest ==> !NewerEntry(t[k], t[e])
    ensures e in passing && |picked| < room ==> Scanning(t, all, passing, rest - {e}, room, picked + [e])
    ensures e !in passing ==> Scanning(t, all, passing, rest - {e}, room, picked)
  {
  }

  lemma ScanDone(t: seq<Entry>, all: set<int>, passing: set<int>, rest: set<int>, room: nat, picked: seq<int>)
    requires Scanning(t, all, passing, rest, room, picked)
    requires rest * passing == {} || |picked| == room
    ensures PickedNewest(t, passing, room, picked)
  {
    forall k | k in passing && k !in picked
      ensures |picked| == room && forall i :: 0 <= i < |picked| ==> !NewerEntry(t[k], t[picked[i]])
    {
      assert k in rest;
      assert k in rest * passing;
    }
  }

  ghost predicate Draining(db: Db, f: Filter, matched: set<Field>, w: Which, all: set<int>, rest: set<int>,
                           room: nat, picked: seq<int>, results: seq<nat>)
  {
    && Scanning(db.Table(w), all, Passing(db, f, matched, w, all), rest, room, picked)
    && KeysOf(w, db.Table(w), picked, results)
  }

  lemma DrainStep(db: Db, f: Filter, matched: set<Field>, w: Which, all: set<int>, rest: set<int>,
                  room: nat, picked: seq<int>, results: seq<nat>, e: int)
    requires Draining(db, f, matched, w, all, rest, room, picked, results) && |picked| < room
    requires e in rest && 0 <= e < |db.Table(w)|
    requires forall k :: k in rest ==> 0 <= k < |db.Table(w)| && !NewerEntry(db.Table(w)[k], db.Table(w)[e])
    ensures if Passes(db, f, matched, w, db.Table(w)[e]) then
              Draining(db, f, matched, w, all, rest - {e}, room, picked + [e], results + [NoteKey(w, db.Table(w)[e])])
            else Draining(db, f, matched, w, all, rest - {e}, room, picked, results)
  {
    ScanStep(db.Table(w), all, Passing(db, f, matched, w, all), rest, room, picked, e);
  }

  lemma DrainStart(db: Db, f: Filter, matched: set<Field>, w: Which, all: set<int>, room: nat)
    requires forall k :: k in all ==> 0 <= k < |db.Table(w)|
    ensures Draining(db, f, matched, w, all, all, room, [], [])
  {
  }

  lemma DrainCount(db: Db, f: Filter, matched: set<Field>, w: Which, all: set<int>, rest: set<int>,
                   room: nat, picked: seq<int>, results: seq<nat>)
    requires Draining(db, f, matched, w, all, rest, room, picked, results)
    ensures |picked| == |results| <= room
    ensures rest == {} || |picked| == room
      ==> PickedNewest(db.Table(w), Passing(db, f, matched, w, all), room, picked) && KeysOf(w, db.Table(w), picked, results)
  {
    if rest == {} || |picked| == room {
      ScanDone(db.Table(w), all, Passing(db, f, matched, w, all), rest, room, picked);
    }
  }

  /** `ndb_query_drain_merger` */
  method Drain(db: Db, f: Filter, st: QueryState, w: Which, m: IndexMerger, matched: set<Field>)
    returns (results: seq<nat>, ghost picked: seq<int>)
    requires m.Valid() && m.table == db.Table(w)
    modifies m, m.scanners, m.heap
    ensures PickedNewest(db.Table(w), Passing(db, f, matched, w, old(m.Rest())), st.Room(), picked)
    ensures KeysOf(w, db.Table(w), picked, results)
  {
    hide Draining, Merging, MatchesWith, PickedNewest, KeysOf, Lookup;
    results, picked := [], [];
    ghost var all := m.Rest();
    ghost var rest := all;
    DrainStart(db, f, matched, w, all, st.Room());
    ghost var scanners, heap := m.scanners, m.heap;
    while true
      invariant m.Valid() && m.scanners == scanners && m.heap == heap && m.Rest() == rest
      invariant Draining(db, f, matched, w, all, rest, st.Room(), picked, results)
      decreases rest
    {
      DrainCount(db, f, matched, w, all, rest, st.Room(), picked, results);
      if st.Full(results) {
        break;
      }
      var more, value, e := m.Next();
      if !more {
        break;
      }
      DrainStep(db, f, matched, w, all, rest, st.Room(), picked, results, e);
      rest := rest - {e};
      var key := NoteKey(w, Entry([], 0, value));
      var note := db.NoteByKey(key);
      if note.Some? && MatchesWith(f, note.value, matched) {
        results := results + [key];
        picked := picked + [e];
      }
    }
    DrainCount(db, f, matched, w, all, rest, st.Room(), picked, results);
  }

  // ---- from index positions to notes ----

  /** The one entry a note has in the kind, pubkey and pubkey+kind indexes. */
  function EntryOf(w: Which, n: Note, key: nat): Entry
    requires w != ByTag
  {
    Entries(w, n, key)[0]
  }

  lemma EntryAt(db: Db, w: Which, j: nat) returns (i: nat)
    requires Exact(db) && (w == ByKind || w == ByPubkey || w == ByPubkeyKind) && j < |db.Table(w)|
    ensures i < |db.rows| && db.Table(w)[j] == EntryOf(w, db.rows[i].note, i + 1)
    ensures NoteKey(w, db.Table(w)[j]) == i + 1
  {
    assert ExactIndex(db, w);
    var e := db.Table(w)[j];
    assert Indexed(db.rows, w, e);
    i :| 0 <= i < |db.rows| && e in Entries(w, db.rows[i].note, db.rows[i].key);
  }

  lemma EntryOfRow(db: Db, w: Which, i: nat) returns (j: nat)
    requires Exact(db) && (w == ByKind || w == ByPubkey || w == ByPubkeyKind) && i < |db.rows|
    ensures j < |db.Table(w)| && db.Table(w)[j] == EntryOf(w, db.rows[i].note, i + 1)
  {
    assert ExactIndex(db, w);
    var e := EntryOf(w, db.rows[i].note, i + 1);
    assert e in Entries(w, db.rows[i].note, db.rows[i].key);
    assert Indexed(db.rows, w, e);
    j :| 0 <= j < |db.Table(w)| && db.Table(w)[j] == e;
  }

  /** The entries of the groups `gs` in the filter's time window. */
  ghost function Windows(t: seq<Entry>, gs: seq<seq<nat>>, since: nat, until: nat): set<int>
  {
    set j | 0 <= j < |t| && t[j].group in gs && since <= t[j].ts < until
  }

  /** Scanning groups `gs` of index `w` misses no note the filter accepts. */
  ghost predicate Covers(db: Db, f: Filter, w: Which, gs: seq<seq<nat>>)
    requires w != ByTag
  {
    forall i :: 0 <= i < |db.rows| && FilterMatches(f, db.rows[i].note)
      ==> EntryOf(w, db.rows[i].note, i + 1).group in gs
  }

  /** What is skipped as already matched is implied by being in the groups. */
  ghost predicate Implies(db: Db, f: Filter, w: Which, gs: seq<seq<nat>>, matched: set<Field>)
    requires w != ByTag
  {
    forall i :: 0 <= i < |db.rows| && EntryOf(w, db.rows[i].note, i + 1).group in gs
                && MatchesWith(f, db.rows[i].note, matched)
      ==> FilterMatches(f, db.rows[i].note)
  }

  ghost predicate Scannable(db: Db, f: Filter, w: Which, gs: seq<seq<nat>>, matched: set<Field>)
  {
    && Exact(db) && Narrow(db)
    && (w == ByKind || w == ByPubkey || w == ByPubkeyKind)
    && Covers(db, f, w, gs) && Implies(db, f, w, gs, matched)
  }

  /** An accepted note is found, and what is found is an accepted note. */
  lemma FoundIsAccepted(db: Db, f: Filter, w: Which, gs: seq<seq<nat>>, matched: set<Field>, j: nat)
    requires Scannable(db, f, w, gs, matched)
    requires j in Passing(db, f, matched, w, Windows(db.Table(w), gs, SinceOf(f), UntilOf(f)))
    ensures Accepted(db, f, NoteKey(w, db.Table(w)[j]))
    ensures CreatedAt(db, NoteKey(w, db.Table(w)[j])) == db.Table(w)[j].ts
  {
    var i := EntryAt(db, w, j);
    LookupConsecutive(db.rows, 0, i + 1);
  }

  lemma AcceptedIsFound(db: Db, f: Filter, w: Which, gs: seq<seq<nat>>, matched: set<Field>, k: nat) returns (j: nat)
    requires Scannable(db, f, w, gs, matched) && Accepted(db, f, k)
    ensures j in Passing(db, f, matched, w, Windows(db.Table(w), gs, SinceOf(f), UntilOf(f)))
    ensures NoteKey(w, db.Table(w)[j]) == k
  {
    RowOfKey(db, k);
    var n := db.rows[k - 1].note;
    MatchesLess(f, n, matched);
    j := EntryOfRow(db, w, k - 1);
    hide MatchesWith, Exact, Lookup;
    assert Passes(db, f, matched, w, db.Table(w)[j]);
    assert j in Windows(db.Table(w), gs, SinceOf(f), UntilOf(f));
  }

  lemma RowOfKey(db: Db, k: nat)
    requires Exact(db) && db.NoteByKey(k).Some?
    ensures 0 < k <= |db.rows| && db.NoteByKey(k).value == db.rows[k - 1].note
  {
    LookupConsecutive(db.rows, 0, k);
  }

  /** A match still matches with fields taken for granted, and lies in the window. */
  lemma MatchesLess(f: Filter, n: Note, matched: set<Field>)
    requires FilterMatches(f, n) && n.body.createdAt < U32
    ensures MatchesWith(f, n, matched) && SinceOf(f) <= n.body.createdAt < UntilOf(f)
  {
  }

  lemma SameKeySamePosition(db: Db, w: Which, i: nat, j: nat)
    requires Exact(db) && (w == ByKind || w == ByPubkey || w == ByPubkeyKind)
    requires i < |db.Table(w)| && j < |db.Table(w)|
    requires NoteKey(w, db.Table(w)[i]) == NoteKey(w, db.Table(w)[j])
    ensures i == j
  {
    var a := EntryAt(db, w, i);
    var b := EntryAt(db, w, j);
    assert ExactIndex(db, w);
    SortedDistinct(db.Table(w), i, j);
  }

  lemma PickedKey(w: Which, t: seq<Entry>, picked: seq<int>, keys: seq<nat>, j: nat)
    requires KeysOf(w, t, picked, keys) && j < |t|
    ensures j in picked ==> NoteKey(w, t[j]) in keys
  {
    if j in picked {
      var i :| 0 <= i < |picked| && picked[i] == j;
      assert keys[i] == NoteKey(w, t[j]);
    }
  }

  /** Picking the newest positions picks the newest notes. */
  lemma PickedAnswers(db: Db, f: Filter, w: Which, gs: seq<seq<nat>>, matched: set<Field>,
                      room: nat, picked: seq<int>, keys: seq<nat>)
    requires Scannable(db, f, w, gs, matched)
    requires PickedNewest(db.Table(w), Passing(db, f, matched, w, Windows(db.Table(w), gs, SinceOf(f), UntilOf(f))), room, picked)
    requires KeysOf(w, db.Table(w), picked, keys)
    ensures IsNewest(db, (k: nat) => Accepted(db, f, k), room, keys)
  {
    var t := db.Table(w);
    var s := Passing(db, f, matched, w, Windows(t, gs, SinceOf(f), UntilOf(f)));
    var p := (k: nat) => Accepted(db, f, k);
    forall i | 0 <= i < |keys| ensures p(keys[i]) && CreatedAt(db, keys[i]) == t[picked[i]].ts {
      assert picked[i] in s;
      FoundIsAccepted(db, f, w, gs, matched, picked[i]);
    }
    forall i, j | 0 <= i < j < |keys| ensures NewerKey(db, keys[i], keys[j]) {
      assert picked[i] != picked[j] && !NewerEntry(t[picked[j]], t[picked[i]]);
      if keys[i] == keys[j] { SameKeySamePosition(db, w, picked[i], picked[j]); }
    }
    forall k | p(k) && k !in keys
      ensures |keys| == room && forall i :: 0 <= i < |keys| ==> NewerKey(db, keys[i], k)
    {
      var j := AcceptedIsFound(db, f, w, gs, matched, k);
      FoundIsAccepted(db, f, w, gs, matched, j);
      PickedKey(w, t, picked, keys, j);
      forall i | 0 <= i < |keys| ensures NewerKey(db, keys[i], k) {
        assert !NewerEntry(t[j], t[picked[i]]);
        assert keys[i] in keys;
      }
    }
  }
  // ---- the merging plans ----

  lemma WindowsGrow(t: seq<Entry>, gs: seq<seq<nat>>, g: seq<nat>, since: nat, until: nat)
    ensures Windows(t, gs, since, until) + Window(t, g, since, until) == Windows(t, gs + [g], since, until)
  {
  }

  /** The merger holds one scanner for each group of `gs`, nothing delivered yet. */
  ghost predicate Opened(m: IndexMerger, gs: seq<seq<nat>>, until: nat)
    reads m, m.scanners, m.heap
  {
    && m.Valid() && m.numScanners == |gs|
    && (forall i :: 0 <= i < |gs| ==> m.Scanners()[i].group == gs[i])
    && m.Rest() == Windows(m.table, gs, m.since, until)
  }

  /** One `ndb_index_merger_add` of a plan's loop. */
  method Open(m: IndexMerger, g: seq<nat>, until: nat, ghost gs: seq<seq<nat>>) returns (ok: bool)
    requires Opened(m, gs, until) && g !in gs
    modifies m`numScanners, m`heapLen, m.scanners, m.heap
    ensures ok <==> |gs| < m.scanners.Length
    ensures Opened(m, if ok then gs + [g] else gs, until)
  {
    WindowsGrow(m.table, gs, g, m.since, until);
    ok := m.Add(g, until);
  }

  function KindGroups(kinds: seq<nat>): (gs: seq<seq<nat>>)
    ensures |gs| == |kinds| && forall i :: 0 <= i < |kinds| ==> gs[i] == [kinds[i]]
  {
    seq(|kinds|, i requires 0 <= i < |kinds| => [kinds[i]])
  }

  /** Filter widths the indexes can represent. */
  ghost predicate PlainKinds(kinds: seq<nat>)
  {
    NoRepeats(kinds) && forall i :: 0 <= i < |kinds| ==> kinds[i] < U32
  }

  /** The plan's answer: the newest `room` accepted notes, newest first, which is
      what filtering and sorting the whole table gives. */
  ghost predicate IsAnswer(db: Db, f: Filter, room: nat, results: seq<nat>)
  {
    && IsNewest(db, (k: nat) => Accepted(db, f, k), room, results)
    && results == BruteForce(db, f, room)
  }

  lemma ScannedAnswers(db: Db, f: Filter, w: Which, gs: seq<seq<nat>>, matched: set<Field>,
                       room: nat, picked: seq<int>, keys: seq<nat>)
    requires Scannable(db, f, w, gs, matched)
    requires PickedNewest(db.Table(w), Passing(db, f, matched, w, Windows(db.Table(w), gs, SinceOf(f), UntilOf(f))), room, picked)
    requires KeysOf(w, db.Table(w), picked, keys)
    ensures IsAnswer(db, f, room, keys)
  {
    PickedAnswers(db, f, w, gs, matched, room, picked, keys);
    NewestIsBruteForce(db, f, room, keys);
  }

  lemma KindsAreScannable(db: Db, f: Filter)
    requires Exact(db) && Narrow(db) && f.kinds.Some? && PlainKinds(f.kinds.value)
    ensures Scannable(db, f, ByKind, KindGroups(f.kinds.value), {KindsField})
  {
    var gs := KindGroups(f.kinds.value);
    forall i | 0 <= i < |db.rows| && FilterMatches(f, db.rows[i].note)
      ensures EntryOf(ByKind, db.rows[i].note, i + 1).group in gs
    {
      var j :| 0 <= j < |f.kinds.value| && f.kinds.value[j] % U32 == db.rows[i].note.body.kind;
      assert gs[j] == [db.rows[i].note.body.kind];
    }
    forall i | 0 <= i < |db.rows| && EntryOf(ByKind, db.rows[i].note, i + 1).group in gs
               && MatchesWith(f, db.rows[i].note, {KindsField})
      ensures FilterMatches(f, db.rows[i].note)
    {
      var j :| 0 <= j < |gs| && gs[j] == [db.rows[i].note.body.kind];
      assert f.kinds.value[j] % U32 == db.rows[i].note.body.kind;
    }
  }

  /** The loop that opens one scan of the kind index per kind. */
  method OpenKinds(t: seq<Entry>, kinds: seq<nat>, since: nat, until: nat) returns (m: IndexMerger)
    requires Sorted(t) && NoRepeats(kinds)
    ensures fresh(m) && fresh(m.scanners) && fresh(m.heap)
    ensures m.table == t && m.since == since && Opened(m, KindGroups(kinds), until)
  {
    hide Merging, Window;
    m := new IndexMerger(t, since, |kinds|);
    ghost var gs := KindGroups(kinds);
    assert Windows(t, gs[..0], since, until) == {};
    var ok := true;
    var i := 0;
    while i < |kinds|
      invariant 0 <= i <= |kinds| && ok
      invariant fresh(m) && fresh(m.scanners) && fresh(m.heap) && m.scanners.Length >= |kinds|
      invariant m.table == t && m.since == since
      invariant Opened(m, gs[..i], until)
    {
      assert gs[..i + 1] == gs[..i] + [gs[i]];
      ok := Open(m, [kinds[i]], until, gs[..i]);
      i := i + 1;
    }
    assert gs[..i] == gs;
  }

  /** `ndb_query_plan_execute_kinds` */
  method ExecuteKinds(db: Db, f: Filter, st: QueryState) returns (ok: bool, results: seq<nat>)
    requires Exact(db) && Narrow(db)
    requires f.kinds.Some? ==> PlainKinds(f.kinds.value)
    ensures ok <==> f.kinds.Some?
    ensures ok ==> IsAnswer(db, f, st.Room(), results)
  {
    results := [];
    if f.kinds.None? {
      return false, [];
    }
    assert ExactIndex(db, ByKind);
    var m := OpenKinds(db.kinds, f.kinds.value, SinceOf(f), UntilOf(f));
    ghost var picked;
    results, picked := Drain(db, f, st, ByKind, m, {KindsField});
    KindsAreScannable(db, f);
    ScannedAnswers(db, f, ByKind, KindGroups(f.kinds.value), {KindsField}, st.Room(), picked, results);
    ok := true;
  }

  /** One group per author and kind, authors outermost. */
  function AuthorKindGroups(authors: seq<Id>, kinds: seq<nat>): seq<seq<nat>>
  {
    if authors == [] then [] else AuthorGroups(authors[0], kinds) + AuthorKindGroups(authors[1..], kinds)
  }

  function AuthorGroups(author: Id, kinds: seq<nat>): (gs: seq<seq<nat>>)
    ensures |gs| == |kinds| && forall i :: 0 <= i < |kinds| ==> gs[i] == author + [kinds[i]]
  {
    seq(|kinds|, i requires 0 <= i < |kinds| => author + [kinds[i]])
  }

  lemma {:induction false} AuthorKindGroupsSplit(authors: seq<Id>, kinds: seq<nat>, j: nat)
    requires j < |authors|
    ensures AuthorKindGroups(authors[..j + 1], kinds)
         == AuthorKindGroups(authors[..j], kinds) + AuthorGroups(authors[j], kinds)
  {
    if j == 0 {
      assert authors[..1][1..] == [];
      assert authors[..0] == [];
    } else {
      AuthorKindGroupsSplit(authors[1..], kinds, j - 1);
      assert authors[..j + 1][1..] == authors[1..][..j];
      assert authors[..j][1..] == authors[1..][..j - 1];
    }
  }

  ghost predicate FromAuthorKind(authors: seq<Id>, kinds: seq<nat>, g: seq<nat>)
  {
    exists j, i :: 0 <= j < |authors| && 0 <= i < |kinds| && g == authors[j] + [kinds[i]]
  }

  lemma {:induction false} AuthorKindGroupsCount(authors: seq<Id>, kinds: seq<nat>)
    ensures |AuthorKindGroups(authors, kinds)| == |authors| * |kinds|
    decreases |authors|
  {
    if authors != [] {
      AuthorKindGroupsCount(authors[1..], kinds);
      assert |authors| * |kinds| == |kinds| + (|authors| - 1) * |kinds|;
    }
  }

  lemma {:induction false} AuthorKindGroupsHold(authors: seq<Id>, kinds: seq<nat>, g: seq<nat>)
    ensures g in AuthorKindGroups(authors, kinds) <==> FromAuthorKind(authors, kinds, g)
    decreases |authors|
  {
    if authors != [] {
      var head, tail := AuthorGroups(authors[0], kinds), AuthorKindGroups(authors[1..], kinds);
      AuthorKindGroupsHold(authors[1..], kinds, g);
      if g in tail {
        var j, i :| 0 <= j < |authors[1..]| && 0 <= i < |kinds| && g == authors[1..][j] + [kinds[i]];
        assert g == authors[j + 1] + [kinds[i]];
      }
      if FromAuthorKind(authors, kinds, g) {
        var j, i :| 0 <= j < |authors| && 0 <= i < |kinds| && g == authors[j] + [kinds[i]];
        if j == 0 {
          assert head[i] == g;
        } else {
          assert g == authors[1..][j - 1] + [kinds[i]];
        }
      }
      if g in head {
        var i :| 0 <= i < |head| && head[i] == g;
        assert g == authors[0] + [kinds[i]];
      }
    }
  }

  lemma SplitAuthorKind(a: Id, k: nat, b: Id, l: nat)
    requires a + [k] == b + [l]
    ensures a == b && k == l
  {
    assert (a + [k])[..32] == a && (b + [l])[..32] == b;
    assert (a + [k])[32] == k && (b + [l])[32] == l;
  }

  lemma FreshAuthorKind(authors: seq<Id>, kinds: seq<nat>, j: nat, i: nat)
    requires NoRepeats(authors) && NoRepeats(kinds) && j < |authors| && i < |kinds|
    ensures authors[j] + [kinds[i]] !in AuthorKindGroups(authors[..j], kinds) + AuthorGroups(authors[j], kinds)[..i]
    ensures |AuthorKindGroups(authors[..j], kinds)| + i < |authors| * |kinds|
  {
    var g := authors[j] + [kinds[i]];
    AuthorKindGroupsHold(authors[..j], kinds, g);
    forall y, x | 0 <= y < j && 0 <= x < |kinds| ensures g != authors[y] + [kinds[x]] {
      if g == authors[y] + [kinds[x]] { SplitAuthorKind(authors[j], kinds[i], authors[y], kinds[x]); }
    }
    forall x | 0 <= x < i ensures AuthorGroups(authors[j], kinds)[x] != g {
      if authors[j] + [kinds[x]] == g { SplitAuthorKind(authors[j], kinds[i], authors[j], kinds[x]); }
    }
    AuthorKindGroupsCount(authors[..j], kinds);
    RoomForOneMore(j, |authors|, i, |kinds|);
  }

  lemma RoomForOneMore(j: nat, m: nat, i: nat, n: nat)
    requires j < m && i < n
    ensures j * n + i < m * n
  {
    assert (j + 1) * n <= m * n;
  }

  lemma AuthorKindCovered(f: Filter, n: Note)
    requires f.kinds.Some? && PlainKinds(f.kinds.value) && f.authors.Some? && n.body.kind < U32
    ensures var g := n.body.pubkey + [n.body.kind];
      && (FilterMatches(f, n) ==> FromAuthorKind(f.authors.value, f.kinds.value, g))
      && (FromAuthorKind(f.authors.value, f.kinds.value, g) && MatchesWith(f, n, {KindsField, AuthorsField})
          ==> FilterMatches(f, n))
  {
    var g := n.body.pubkey + [n.body.kind];
    if FilterMatches(f, n) {
      var i :| 0 <= i < |f.kinds.value| && f.kinds.value[i] % U32 == n.body.kind;
      var j :| 0 <= j < |f.authors.value| && f.authors.value[j] == n.body.pubkey;
      assert g == f.authors.value[j] + [f.kinds.value[i]];
    }
    if FromAuthorKind(f.authors.value, f.kinds.value, g) {
      var j, i :| 0 <= j < |f.authors.value| && 0 <= i < |f.kinds.value| && g == f.authors.value[j] + [f.kinds.value[i]];
      SplitAuthorKind(n.body.pubkey, n.body.kind, f.authors.value[j], f.kinds.value[i]);
      assert f.kinds.value[i] % U32 == n.body.kind;
    }
  }

  lemma AuthorKindsAreScannable(db: Db, f: Filter)
    requires Exact(db) && Narrow(db) && f.kinds.Some? && PlainKinds(f.kinds.value) && f.authors.Some?
    ensures Scannable(db, f, ByPubkeyKind, AuthorKindGroups(f.authors.value, f.kinds.value), {KindsField, AuthorsField})
  {
    hide AuthorKindGroups, MatchesWith, FromAuthorKind, ExactIndex;
    forall i | 0 <= i < |db.rows|
      ensures FilterMatches(f, db.rows[i].note)
         ==> EntryOf(ByPubkeyKind, db.rows[i].note, i + 1).group in AuthorKindGroups(f.authors.value, f.kinds.value)
      ensures (EntryOf(ByPubkeyKind, db.rows[i].note, i + 1).group in AuthorKindGroups(f.authors.value, f.kinds.value)
               && MatchesWith(f, db.rows[i].note, {KindsField, AuthorsField})) ==> FilterMatches(f, db.rows[i].note)
    {
      var b := db.rows[i].note.body;
      AuthorKindGroupsHold(f.authors.value, f.kinds.value, b.pubkey + [b.kind]);
      AuthorKindCovered(f, db.rows[i].note);
    }
  }

  /** The nested loops that open one scan per author and kind. */
  method OpenAuthorKinds(t: seq<Entry>, authors: seq<Id>, kinds: seq<nat>, since: nat, until: nat) returns (m: IndexMerger)
    requires Sorted(t) && NoRepeats(authors) && NoRepeats(kinds)
    ensures fresh(m) && fresh(m.scanners) && fresh(m.heap)
    ensures m.table == t && m.since == since && Opened(m, AuthorKindGroups(authors, kinds), until)
  {
    hide Merging, Window;
    m := new IndexMerger(t, since, |authors| * |kinds|);
    assert Opened(m, AuthorKindGroups(authors[..0], kinds), until);
    hide Opened, AuthorKindGroups, AuthorGroups;
    var j := 0;
    while j < |authors|
      invariant 0 <= j <= |authors|
      invariant fresh(m) && fresh(m.scanners) && fresh(m.heap) && m.scanners.Length >= |authors| * |kinds|
      invariant m.table == t && m.since == since
      invariant Opened(m, AuthorKindGroups(authors[..j], kinds), until)
    {
      OpenAuthor(m, authors, kinds, j, until);
      AuthorKindGroupsSplit(authors, kinds, j);
      j := j + 1;
    }
    assert authors[..j] == authors;
  }

  /** The inner loop: one scan per kind of author `j`. The caller has made room. */
  method OpenAuthor(m: IndexMerger, authors: seq<Id>, kinds: seq<nat>, j: nat, until: nat)
    requires NoRepeats(authors) && NoRepeats(kinds) && j < |authors|
    requires m.scanners.Length >= |authors| * |kinds| && Opened(m, AuthorKindGroups(authors[..j], kinds), until)
    modifies m`numScanners, m`heapLen, m.scanners, m.heap
    ensures Opened(m, AuthorKindGroups(authors[..j], kinds) + AuthorGroups(authors[j], kinds), until)
  {
    ghost var done, row := AuthorKindGroups(authors[..j], kinds), AuthorGroups(authors[j], kinds);
    hide Opened, AuthorKindGroups, NoRepeats;
    assert done + row[..0] == done;
    var i := 0;
    while i < |kinds|
      invariant 0 <= i <= |kinds|
      invariant Opened(m, done + row[..i], until)
    {
      FreshAuthorKind(authors, kinds, j, i);
      assert done + row[..i + 1] == done + row[..i] + [row[i]];
      var ok := Open(m, authors[j] + [kinds[i]], until, done + row[..i]);
      i := i + 1;
    }
    assert row[..i] == row;
  }

  /** `ndb_query_plan_execute_author_kinds` */
  method ExecuteAuthorKinds(db: Db, f: Filter, st: QueryState) returns (ok: bool, results: seq<nat>)
    requires Exact(db) && Narrow(db)
    requires f.kinds.Some? ==> PlainKinds(f.kinds.value)
    requires f.authors.Some? ==> NoRepeats(f.authors.value)
    ensures ok <==> f.kinds.Some? && f.authors.Some?
    ensures ok ==> IsAnswer(db, f, st.Room(), results)
  {
    results := [];
    if f.kinds.None? || f.authors.None? {
      return false, [];
    }
    assert ExactIndex(db, ByPubkeyKind);
    var m := OpenAuthorKinds(db.pubkeyKinds, f.authors.value, f.kinds.value, SinceOf(f), UntilOf(f));
    ghost var picked;
    results, picked := Drain(db, f, st, ByPubkeyKind, m, {KindsField, AuthorsField});
    AuthorKindsAreScannable(db, f);
    ScannedAnswers(db, f, ByPubkeyKind, AuthorKindGroups(f.authors.value, f.kinds.value), {KindsField, AuthorsField},
                   st.Room(), picked, results);
    ok := true;
  }

  // ---- every kind present ----

  ghost predicate OneNumberGroups(t: seq<Entry>)
  {
    forall i :: 0 <= i < |t| ==> |t[i].group| == 1
  }

  ghost predicate HasKind(t: seq<Entry>, k: nat)
  {
    exists p :: 0 <= p < |t| && t[p].group == [k]
  }

  /** The kinds below `bound` that occur in the kind index, ascending. */
  ghost predicate AreTheKinds(t: seq<Entry>, kinds: seq<nat>, bound: nat)
  {
    && (forall i, j :: 0 <= i < j < |kinds| ==> kinds[i] < kinds[j])
    && (forall k: nat :: k in kinds <==> k < bound && HasKind(t, k))
  }

  lemma KindsFrom(t: seq<Entry>, bound: nat, q: nat)
    requires Sorted(t) && OneNumberGroups(t) && q < |t|
    ensures q < SetRange(t, [bound], 0) <==> t[q].group[0] < bound
  {
    hide SetRange, LexLess;
    var x := t[q].group[0];
    assert t[q].group == [x];
    SetRangeSplits(t, [bound], 0, q);
    LexSingle(x, bound);
  }

  /** The next MDB_SET_RANGE lands on the next kind, or there is none. */
  lemma NextKind(t: seq<Entry>, kinds: seq<nat>, bound: nat, p: nat)
    requires Sorted(t) && OneNumberGroups(t) && AreTheKinds(t, kinds, bound) && p == SetRange(t, [bound], 0)
    ensures p == |t| ==> forall q :: 0 <= q < |t| ==> t[q].group[0] < bound
    ensures p < |t| ==> t[p].group[0] >= bound && AreTheKinds(t, kinds + [t[p].group[0]], t[p].group[0] + 1)
  {
    hide SetRange, Sorted;
    forall q | 0 <= q < |t| ensures q < p <==> t[q].group[0] < bound {
      KindsFrom(t, bound, q);
    }
    if p < |t| {
      var k := t[p].group[0];
      assert t[p].group == [k];
      forall i | 0 <= i < |kinds| ensures kinds[i] < bound {
        var x: nat := kinds[i];
        assert x in kinds;
      }
      forall x: nat ensures x in kinds + [k] <==> x < k + 1 && HasKind(t, x) {
        if x < k + 1 && HasKind(t, x) {
          var q :| 0 <= q < |t| && t[q].group == [x];
          assert t[q].group[0] == x;
          if p < q { GroupsAscend(t, p, q); }
        }
      }
    }
  }

  lemma GroupsAscend(t: seq<Entry>, p: nat, q: nat)
    requires Sorted(t) && OneNumberGroups(t) && p < q < |t|
    ensures t[p].group[0] <= t[q].group[0]
  {
    assert Less(t[p], t[q]);
  }

  /** `ndb_all_kinds`: hop from kind to kind with MDB_SET_RANGE. */
  method AllKinds(t: seq<Entry>) returns (kinds: seq<nat>)
    requires Sorted(t) && OneNumberGroups(t) && forall i :: 0 <= i < |t| ==> t[i].group[0] < U64
    ensures forall i, j :: 0 <= i < j < |kinds| ==> kinds[i] < kinds[j]
    ensures forall k: nat :: k in kinds <==> HasKind(t, k)
  {
    kinds := [];
    var key := 0;
    while true
      invariant AreTheKinds(t, kinds, key)
      invariant key <= U64 - 1
      decreases U64 - key
    {
      var p := SetRange(t, [key], 0);
      NextKind(t, kinds, key, p);
      if p == |t| {
        break;
      }
      var kind := t[p].group[0];
      kinds := kinds + [kind];
      key := kind + 1;
      if kind == U64 - 1 {
        break;
      }
    }
    forall k: nat | HasKind(t, k) ensures k in kinds {
      var p :| 0 <= p < |t| && t[p].group == [k];
      assert t[p].group[0] == k;
    }
  }

  lemma AllKindsAreScannable(db: Db, f: Filter, kinds: seq<nat>)
    requires Exact(db) && Narrow(db)
    requires forall k: nat :: k in kinds <==> HasKind(db.kinds, k)
    ensures Scannable(db, f, ByKind, KindGroups(kinds), {})
  {
    forall i | 0 <= i < |db.rows| ensures EntryOf(ByKind, db.rows[i].note, i + 1).group in KindGroups(kinds) {
      var j := EntryOfRow(db, ByKind, i);
      var k := db.rows[i].note.body.kind;
      assert db.kinds[j].group == [k];
      assert k in kinds;
      var x :| 0 <= x < |kinds| && kinds[x] == k;
      assert KindGroups(kinds)[x] == [k];
    }
  }

  lemma KindIndexShape(db: Db)
    requires Exact(db) && Narrow(db)
    ensures Sorted(db.kinds) && OneNumberGroups(db.kinds)
    ensures forall i :: 0 <= i < |db.kinds| ==> db.kinds[i].group[0] < U64
  {
    assert ExactIndex(db, ByKind) && db.Table(ByKind) == db.kinds;
    forall i | 0 <= i < |db.kinds| ensures |db.kinds[i].group| == 1 && db.kinds[i].group[0] < U64 {
      var r := EntryAt(db, ByKind, i);
    }
  }

  /** `ndb_query_plan_execute_created_at` */
  method ExecuteCreated(db: Db, f: Filter, st: QueryState) returns (ok: bool, results: seq<nat>)
    requires Exact(db) && Narrow(db)
    ensures ok && IsAnswer(db, f, st.Room(), results)
  {
    KindIndexShape(db);
    var kinds := AllKinds(db.kinds);
    var m := OpenKinds(db.kinds, kinds, SinceOf(f), UntilOf(f));
    ghost var picked;
    results, picked := Drain(db, f, st, ByKind, m, {});
    AllKindsAreScannable(db, f, kinds);
    ScannedAnswers(db, f, ByKind, KindGroups(kinds), {}, st.Room(), picked, results);
    ok := true;
  }
  // ---- the plans that walk one group ----

  /** What a reverse walk standing at `pos` has yet to visit. */
  ghost function Ahead(t: seq<Entry>, since: nat, g: seq<nat>, pos: int): set<int>
  {
    set j | 0 <= j < |t| && Owes(t, since, Scanner(g, pos, 0, 0), j)
  }

  /** `pos` is where the walk of `g` began, or one step below an entry of `g`. */
  ghost predicate Walking(t: seq<Entry>, since: nat, until: nat, g: seq<nat>, pos: int)
  {
    && -1 <= pos < |t|
    && (pos + 1 == SetRange(t, g, until)
        || (pos + 1 < |t| && t[pos + 1].group == g && since <= t[pos + 1].ts))
  }

  lemma WalkStart(t: seq<Entry>, since: nat, until: nat, g: seq<nat>, pos: int)
    requires Sorted(t) && -1 <= pos < |t| && pos + 1 == SetRange(t, g, until)
    ensures Ahead(t, since, g, pos) == Windows(t, [g], since, until)
  {
    forall j | 0 <= j < |t| ensures j in Ahead(t, since, g, pos) <==> j in Windows(t, [g], since, until) {
      StartedRange(t, since, until, g, pos, Scanner(g, pos, 0, 0), j);
    }
  }

  lemma WalkEnd(t: seq<Entry>, since: nat, until: nat, g: seq<nat>, pos: int)
    requires Sorted(t) && Walking(t, since, until, g, pos)
    requires pos < 0 || t[pos].group != g || t[pos].ts < since
    ensures Ahead(t, since, g, pos) == {}
  {
    var s := Scanner(g, pos, 0, 0);
    if pos + 1 == SetRange(t, g, until) {
      StartedOut(t, since, until, g, pos);
      assert Finished(t, since, s);
    } else {
      SteppedOut(t, since, Scanner(g, pos + 1, t[pos + 1].ts, t[pos + 1].key), pos);
      forall j ensures !Owes(t, since, s, j) {
        assert !Owes(t, since, Scanner(g, pos + 1, t[pos + 1].ts, t[pos + 1].key).(pos := pos), j);
      }
    }
  }

  lemma WalkStep(t: seq<Entry>, since: nat, until: nat, g: seq<nat>, pos: int)
    requires Sorted(t) && Walking(t, since, until, g, pos) && pos >= 0 && t[pos].group == g && since <= t[pos].ts
    ensures pos in Ahead(t, since, g, pos)
    ensures Ahead(t, since, g, pos - 1) == Ahead(t, since, g, pos) - {pos}
    ensures forall k :: k in Ahead(t, since, g, pos) ==> 0 <= k < |t| && !NewerEntry(t[k], t[pos])
    ensures Walking(t, since, until, g, pos - 1)
  {
    forall k | k in Ahead(t, since, g, pos) ensures !NewerEntry(t[k], t[pos]) {
      if k < pos { InGroupDescends(t, k, pos); }
    }
  }

  /** The loop body shared by the author and tag plans: walk group `g` backwards
      from the newest entry below `until`. */
  method WalkGroup(db: Db, f: Filter, st: QueryState, w: Which, g: seq<nat>, since: nat, until: nat,
                   matched: set<Field>, prior: seq<nat>)
    returns (results: seq<nat>, ghost picked: seq<int>)
    requires Sorted(db.Table(w))
    ensures prior == [] ==>
      && PickedNewest(db.Table(w), Passing(db, f, matched, w, Windows(db.Table(w), [g], since, until)), st.Room(), picked)
      && KeysOf(w, db.Table(w), picked, results)
  {
    hide Draining, MatchesWith, PickedNewest, KeysOf, Lookup, Sorted, Ahead, Walking, Windows;
    var t := db.Table(w);
    ghost var all := Windows(t, [g], since, until);
    results, picked := prior, [];
    var start := CursorStart(t, g, until);
    var pos: int := if start.Some? then start.value else -1;
    WalkStart(t, since, until, g, pos);
    assert Walking(t, since, until, g, pos) by { WalkingFromStart(t, since, until, g, pos); }
    WindowsInRange(t, [g], since, until);
    DrainStart(db, f, matched, w, all, st.Room());
    while true
      invariant -1 <= pos < |t| && Walking(t, since, until, g, pos)
      invariant prior == [] ==> Draining(db, f, matched, w, all, Ahead(t, since, g, pos), st.Room(), picked, results)
      decreases pos
    {
      if prior == [] { DrainCount(db, f, matched, w, all, Ahead(t, since, g, pos), st.Room(), picked, results); }
      if pos < 0 || t[pos].group != g || t[pos].ts < since { WalkEnd(t, since, until, g, pos); }
      if pos < 0 || st.Full(results) {
        break;
      }
      if t[pos].ts < since {
        break;
      }
      if t[pos].group != g {
        break;
      }
      WalkStep(t, since, until, g, pos);
      if prior == [] {
        DrainStep(db, f, matched, w, all, Ahead(t, since, g, pos), st.Room(), picked, results, pos);
      }
      var key := NoteKey(w, t[pos]);
      var note := db.NoteByKey(key);
      if note.Some? && MatchesWith(f, note.value, matched) {
        results := results + [key];
        picked := picked + [pos];
      }
      pos := pos - 1;
    }
    if prior == [] { DrainCount(db, f, matched, w, all, Ahead(t, since, g, pos), st.Room(), picked, results); }
  }

  lemma WalkingFromStart(t: seq<Entry>, since: nat, until: nat, g: seq<nat>, pos: int)
    requires -1 <= pos < |t| && pos + 1 == SetRange(t, g, until)
    ensures Walking(t, since, until, g, pos)
  {
  }

  lemma WindowsInRange(t: seq<Entry>, gs: seq<seq<nat>>, since: nat, until: nat)
    ensures forall k :: k in Windows(t, gs, since, until) ==> 0 <= k < |t|
  {
  }

  lemma AuthorIsScannable(db: Db, f: Filter)
    requires Exact(db) && Narrow(db) && f.authors.Some? && |f.authors.value| == 1
    ensures Scannable(db, f, ByPubkey, [f.authors.value[0]], {AuthorsField})
  {
  }

  /** `ndb_query_plan_execute_authors`. Authors are walked one after the other,
      so the answer is newest-first only for the single author the planner sends. */
  method ExecuteAuthors(db: Db, f: Filter, st: QueryState) returns (ok: bool, results: seq<nat>)
    requires Exact(db) && Narrow(db)
    ensures ok <==> f.authors.Some?
    ensures ok && |f.authors.value| == 1 ==> IsAnswer(db, f, st.Room(), results)
  {
    results := [];
    if f.authors.None? {
      return false, [];
    }
    var authors := f.authors.value;
    assert ExactIndex(db, ByPubkey);
    ghost var picked: seq<int> := [];
    var i := 0;
    while i < |authors|
      invariant 0 <= i <= |authors| && (i == 0 ==> results == [])
      invariant i == 1 ==>
        && PickedNewest(db.pubkeys, Passing(db, f, {AuthorsField}, ByPubkey,
                        Windows(db.pubkeys, [authors[0]], SinceOf(f), UntilOf(f))), st.Room(), picked)
        && KeysOf(ByPubkey, db.pubkeys, picked, results)
    {
      results, picked := WalkGroup(db, f, st, ByPubkey, authors[i], SinceOf(f), UntilOf(f), {AuthorsField}, results);
      i := i + 1;
    }
    if |authors| == 1 {
      AuthorIsScannable(db, f);
      ScannedAnswers(db, f, ByPubkey, [authors[0]], {AuthorsField}, st.Room(), picked, results);
    }
    ok := true;
  }
}
