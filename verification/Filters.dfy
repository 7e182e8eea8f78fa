/** Filters, what they match (`ndb_filter_matches_with`), and the query planner. */
module Filters {
  import opened Tables
  import opened Notes

  datatype TagValues = Ids(ids: seq<Id>) | Strs(strs: seq<seq<nat>>)
  {
    function Count(): nat { if Ids? then |ids| else |strs| }
  }

  datatype TagField = TagField(tag: nat, values: TagValues)

  // `unset` is a filter whose element buffer was never allocated. A search field only
  // matters to the planner here.
  datatype Filter = Filter(
    unset: bool,
    ids: Option<seq<Id>>, authors: Option<seq<Id>>, kinds: Option<seq<nat>>, tags: Option<TagField>,
    since: Option<nat>, until: Option<nat>, limit: Option<nat>,
    custom: Option<Note -> bool>,
    search: bool, relays: bool)

  datatype Field = IdsField | AuthorsField | KindsField | TagsField

  /** One tag of a note against the tag field (`ndb_tag_filter_matches`). */
  predicate TagMatches(f: TagField, t: Tag)
  {
    && |t| >= 2
    && t[0].Str? && |t[0].chars| <= 2
    && t[0].CharAt(0) == f.tag && t[0].CharAt(1) == 0
    && match f.values
       case Ids(ids) => t[1].PackedId? && t[1].id in ids
       case Strs(strs) => t[1].Str? && t[1].chars in strs
  }

  predicate AnyTagMatches(f: TagField, n: Note)
  {
    exists i :: 0 <= i < |n.body.tags| && TagMatches(f, n.body.tags[i])
  }

  /** `ndb_filter_matches_with` without the relays a note was seen on, where a filter
      with a relay field matches nothing; fields in `matched` are taken for granted.
      Filter kinds are cast to 32 bits, and `until` is exclusive. */
  predicate MatchesWith(f: Filter, n: Note, matched: set<Field>)
  {
    && (f.ids.Some? && IdsField !in matched ==> n.id in f.ids.value)
    && (f.authors.Some? && AuthorsField !in matched ==> n.body.pubkey in f.authors.value)
    && (f.kinds.Some? && KindsField !in matched ==>
          exists j :: 0 <= j < |f.kinds.value| && f.kinds.value[j] % U32 == n.body.kind)
    && (f.tags.Some? && TagsField !in matched ==> AnyTagMatches(f.tags.value, n))
    && (f.since.Some? ==> n.body.createdAt >= f.since.value)
    && (f.until.Some? ==> n.body.createdAt < f.until.value)
    && (f.custom.Some? ==> f.custom.value(n))
    && !f.relays
  }

  /** `ndb_filter_matches` */
  predicate FilterMatches(f: Filter, n: Note)
  {
    MatchesWith(f, n, {})
  }

  // ---- what the matcher means ----

  /** The tag field with only its `i`-th value. */
  function Single(f: TagField, i: nat): (g: TagField)
    requires i < f.values.Count()
    ensures g.tag == f.tag && g.values.Count() == 1
  {
    TagField(f.tag, match f.values case Ids(ids) => Ids([ids[i]]) case Strs(strs) => Strs([strs[i]]))
  }

  /** The `i`-th value as an element of a tag. */
  function ValueAt(f: TagField, i: nat): TagElem
    requires i < f.values.Count()
  {
    match f.values
    case Ids(ids) => PackedId(ids[i])
    case Strs(strs) => Str(strs[i])
  }

  /** A field accepts a tag exactly when one of its values, alone, accepts it. */
  lemma AnyValueMatches(f: TagField, t: Tag)
    ensures TagMatches(f, t) <==> exists i :: 0 <= i < f.values.Count() && TagMatches(Single(f, i), t)
  {
    if TagMatches(f, t) {
      match f.values {
        case Ids(ids) =>
          var i :| 0 <= i < |ids| && ids[i] == t[1].id;
          assert TagMatches(Single(f, i), t);
        case Strs(strs) =>
          var i :| 0 <= i < |strs| && strs[i] == t[1].chars;
          assert TagMatches(Single(f, i), t);
      }
    }
  }

  /** A name as the builder packs it: a C string. */
  predicate CName(t: Tag)
  {
    |t| >= 1 && t[0].Str? ==> 0 !in t[0].chars
  }

  /** One value accepts the tags that start with the field's letter and the value. */
  lemma OneValueMatches(f: TagField, i: nat, t: Tag)
    requires i < f.values.Count() && f.tag != 0 && CName(t)
    ensures TagMatches(Single(f, i), t) <==> |t| >= 2 && t[0] == Str([f.tag]) && t[1] == ValueAt(f, i)
  {
    if TagMatches(Single(f, i), t) {
      IsCString(t[0].chars, f.tag);
    }
  }

  lemma IsCString(s: seq<nat>, c: nat)
    requires 0 !in s
    ensures c != 0 && |s| <= 2 && Str(s).CharAt(0) == c && Str(s).CharAt(1) == 0 ==> s == [c]
  {
    assert |s| > 1 ==> s[1] in s;
  }

  /** The filter as NIP-01 words it: for every field one value that fits, and since <=
      created_at <= until. */
  ghost predicate Nip01(f: Filter, n: Note)
  {
    && (f.ids.Some? ==> exists i :: 0 <= i < |f.ids.value| && f.ids.value[i] == n.id)
    && (f.authors.Some? ==> exists i :: 0 <= i < |f.authors.value| && f.authors.value[i] == n.body.pubkey)
    && (f.kinds.Some? ==> exists i :: 0 <= i < |f.kinds.value| && f.kinds.value[i] == n.body.kind)
    && (f.tags.Some? ==> SomeTagHasValue(f.tags.value, n))
    && (f.since.Some? ==> f.since.value <= n.body.createdAt)
    && (f.until.Some? ==> n.body.createdAt <= f.until.value)
  }

  predicate HasValue(t: Tag, letter: nat, value: TagElem)
  {
    |t| >= 2 && t[0] == Str([letter]) && t[1] == value
  }

  /** Some tag starts with the letter and one of the values. */
  predicate SomeTagHasValue(f: TagField, n: Note)
  {
    exists i, j ::
      && 0 <= i < f.values.Count() && 0 <= j < |n.body.tags|
      && HasValue(n.body.tags[j], f.tag, ValueAt(f, i))
  }

  ghost predicate PlainFilter(f: Filter, n: Note)
  {
    && !f.relays && f.custom.None? && n.body.kind < U32
    && (f.kinds.Some? ==> forall i :: 0 <= i < |f.kinds.value| ==> f.kinds.value[i] < U32)
    && (f.tags.Some? ==> f.tags.value.tag != 0) && forall j :: 0 <= j < |n.body.tags| ==> CName(n.body.tags[j])
  }

  lemma TagFieldMeans(f: TagField, n: Note)
    requires f.tag != 0 && forall j :: 0 <= j < |n.body.tags| ==> CName(n.body.tags[j])
    ensures AnyTagMatches(f, n) <==> SomeTagHasValue(f, n)
  {
    hide TagMatches;
    if j :| 0 <= j < |n.body.tags| && TagMatches(f, n.body.tags[j]) {
      AnyValueMatches(f, n.body.tags[j]);
      var i :| 0 <= i < f.values.Count() && TagMatches(Single(f, i), n.body.tags[j]);
      OneValueMatches(f, i, n.body.tags[j]);
      assert HasValue(n.body.tags[j], f.tag, ValueAt(f, i));
    }
    if i, j :| 0 <= i < f.values.Count() && 0 <= j < |n.body.tags| && HasValue(n.body.tags[j], f.tag, ValueAt(f, i)) {
      AnyValueMatches(f, n.body.tags[j]);
      OneValueMatches(f, i, n.body.tags[j]);
    }
  }

  lemma KindFieldMeans(kinds: seq<nat>, kind: nat)
    requires kind < U32 && forall i :: 0 <= i < |kinds| ==> kinds[i] < U32
    ensures (exists j :: 0 <= j < |kinds| && kinds[j] % U32 == kind) <==> exists i :: 0 <= i < |kinds| && kinds[i] == kind
  {
    if j :| 0 <= j < |kinds| && kinds[j] % U32 == kind {
      assert kinds[j] == kind;
    }
    if i :| 0 <= i < |kinds| && kinds[i] == kind {
      assert kinds[i] % U32 == kind;
    }
  }

  /** The matcher accepts what NIP-01 does, but for notes of exactly the time `until`. */
  lemma MatcherIsNip01(f: Filter, n: Note)
    requires PlainFilter(f, n)
    ensures FilterMatches(f, n) <==> Nip01(f, n) && f.until != Some(n.body.createdAt)
  {
    hide AnyTagMatches, SomeTagHasValue;
    if f.kinds.Some? { KindFieldMeans(f.kinds.value, n.body.kind); }
    if f.tags.Some? { TagFieldMeans(f.tags.value, n); }
  }

  /** Outside 32 bits a kind stands for another one: the filter is read modulo 2^32. */
  lemma KindsAreRead32(f: Filter, n: Note, kinds: seq<nat>)
    requires f.kinds.Some? && |kinds| == |f.kinds.value| && forall i :: 0 <= i < |kinds| ==> kinds[i] == f.kinds.value[i] % U32
    ensures FilterMatches(f, n) <==> FilterMatches(f.(kinds := Some(kinds)), n)
  {
    hide AnyTagMatches;
    forall i | 0 <= i < |kinds| ensures kinds[i] % U32 == f.kinds.value[i] % U32 {
    }
  }

  datatype Plan = AllNotes | ProfileSearch | Search | ByIds | RelayKinds | AuthorKinds | Authors | Tags | Kinds | Created

  const MAX_AUTHOR_KIND_SCANNERS := 64

  /** `ndb_filter_plan` */
  function PlanFor(f: Filter): Plan
  {
    if f.unset then AllNotes
    else if f.kinds.Some? && |f.kinds.value| == 1 && f.kinds.value[0] == 0 && f.search then ProfileSearch
    else if f.search then Search
    else if f.ids.Some? then ByIds
    else if f.relays && f.kinds.Some? && f.authors.None? then RelayKinds
    else if f.kinds.Some? && f.authors.Some?
            && (|f.authors.value| == 1 || |f.authors.value| * |f.kinds.value| <= MAX_AUTHOR_KIND_SCANNERS) then AuthorKinds
    else if f.authors.Some? && |f.authors.value| == 1 then Authors
    else if f.tags.Some? && f.tags.value.values.Count() == 1 then Tags
    else if f.kinds.Some? then Kinds
    else Created
  }

  function SinceOf(f: Filter): nat { if f.since.Some? then f.since.value else 0 }

  function UntilOf(f: Filter): nat { if f.until.Some? then f.until.value else U64 - 1 }

  // ---- limits ----

  /** A C cast from uint64 to a 32-bit int. */
  function ToInt32(x: nat): int
  {
    var r := x % U32;
    if r < 0x8000_0000 then r else r - U32
  }

  function Min(a: int, b: int): int { if a < b then a else b }

  /** `ndb_query_state_fill_limit` with a result capacity. A negative minimum
      becomes a huge unsigned limit. */
  function FillLimit(f: Filter, capacity: nat): nat
  {
    if f.limit.Some? && f.limit.value != 0 then
      var m := Min(capacity, ToInt32(f.limit.value));
      if m < 0 then U64 + m else m
    else capacity
  }

  /** How many results fit: `query_is_full` treats limit 0 as no limit. */
  function Room(capacity: nat, limit: nat): nat
  {
    if limit == 0 then capacity else Min(capacity, limit)
  }

  /** What a limit is documented to mean: 0 and absent do not clamp. */
  function WantedCount(f: Filter, capacity: nat): nat
  {
    if f.limit.Some? && f.limit.value != 0 then Min(capacity, f.limit.value) else capacity
  }

  /** The 32-bit cast of the limit is harmless exactly when it is not positive,
      loses nothing, or still reaches the capacity. */
  lemma LimitIsRespectedIff(f: Filter, capacity: nat)
    requires capacity < 0x8000_0000 && f.limit.Some? && 0 < f.limit.value < U64
    ensures Room(capacity, FillLimit(f, capacity)) == WantedCount(f, capacity)
       <==> ToInt32(f.limit.value) <= 0 || ToInt32(f.limit.value) == f.limit.value || capacity <= ToInt32(f.limit.value)
  {
    var p := f.limit.value;
    assert p % U32 <= p;
    if ToInt32(p) <= 0 {
      assert p >= 0x8000_0000;
    }
  }

  /** So a limit just above 2^32 is cut down to one result. */
  lemma LimitCastCutsResults(f: Filter)
    requires f.limit == Some(U32 + 1)
    ensures Room(10, FillLimit(f, 10)) == 1 && WantedCount(f, 10) == 10
  {
  }
}

/** What a query should answer: the newest k of the accepted notes. */
module Answers {
  import opened Basics
  import opened Tables
  import opened Notes
  import opened Database
  import opened Filters

  function CreatedAt(db: Db, k: nat): nat
  {
    match db.NoteByKey(k) case Some(n) => n.body.createdAt case None => 0
  }

  /** Descending `created_at`, then descending note key. */
  predicate NewerKey(db: Db, a: nat, b: nat)
  {
    var s, t := CreatedAt(db, a), CreatedAt(db, b);
    if s != t then s > t else a > b
  }

  predicate Accepted(db: Db, f: Filter, k: nat)
  {
    match db.NoteByKey(k) case Some(n) => FilterMatches(f, n) case None => false
  }

  /** What a tag field of many values lets through is what its values, one at a time, let
      through together. */
  lemma AcceptedByOneValue(db: Db, f: Filter, k: nat)
    requires f.tags.Some?
    ensures Accepted(db, f, k)
       <==> exists i :: 0 <= i < f.tags.value.values.Count() && Accepted(db, f.(tags := Some(Single(f.tags.value, i))), k)
  {
    hide TagMatches, Lookup;
    match db.NoteByKey(k) {
      case None =>
      case Some(n) =>
        if j :| 0 <= j < |n.body.tags| && TagMatches(f.tags.value, n.body.tags[j]) {
          AnyValueMatches(f.tags.value, n.body.tags[j]);
          var i :| 0 <= i < f.tags.value.values.Count() && TagMatches(Single(f.tags.value, i), n.body.tags[j]);
          assert AnyTagMatches(Single(f.tags.value, i), n);
        }
        forall i | 0 <= i < f.tags.value.values.Count() && AnyTagMatches(Single(f.tags.value, i), n) ensures AnyTagMatches(f.tags.value, n) {
          var j :| 0 <= j < |n.body.tags| && TagMatches(Single(f.tags.value, i), n.body.tags[j]);
          AnyValueMatches(f.tags.value, n.body.tags[j]);
        }
        OtherFields(f, n);
    }
  }

  lemma OtherFields(f: Filter, n: Note)
    requires f.tags.Some?
    ensures FilterMatches(f, n) <==> FilterMatches(f.(tags := None), n) && AnyTagMatches(f.tags.value, n)
    ensures forall i :: 0 <= i < f.tags.value.values.Count() ==>
      (FilterMatches(f.(tags := Some(Single(f.tags.value, i))), n)
       <==> FilterMatches(f.(tags := None), n) && AnyTagMatches(Single(f.tags.value, i), n))
  {
    hide AnyTagMatches;
  }

  // ---- filtering and sorting the whole note table ----

  /** Insert a key into a newest-first list. */
  function InsertKey(db: Db, k: nat, ks: seq<nat>): seq<nat>
  {
    if ks == [] || NewerKey(db, k, ks[0]) then [k] + ks else [ks[0]] + InsertKey(db, k, ks[1..])
  }

  /** The accepted keys among 1..n, newest first. */
  function AllAccepted(db: Db, f: Filter, n: nat): seq<nat>
  {
    if n == 0 then []
    else if Accepted(db, f, n) then InsertKey(db, n, AllAccepted(db, f, n - 1))
    else AllAccepted(db, f, n - 1)
  }

  /** Filter every note, sort, keep `room`. */
  function BruteForce(db: Db, f: Filter, room: nat): seq<nat>
  {
    var all := AllAccepted(db, f, |db.rows|);
    all[..Min(room, |all|)]
  }

  // ---- the same, as a property of an answer ----

  ghost predicate NewestFirst(db: Db, ks: seq<nat>)
  {
    forall i, j :: 0 <= i < j < |ks| ==> NewerKey(db, ks[i], ks[j])
  }

  /** `out` is the newest `room` of the keys satisfying `p`, newest first. */
  ghost predicate IsNewest(db: Db, p: nat -> bool, room: nat, out: seq<nat>)
  {
    && NewestFirst(db, out) && |out| <= room
    && (forall i :: 0 <= i < |out| ==> p(out[i]))
    && (forall k :: p(k) && k !in out ==> |out| == room && forall i :: 0 <= i < |out| ==> NewerKey(db, out[i], k))
  }

  /** The same with ties in `created_at` left free. */
  ghost predicate IsNewestByTime(db: Db, p: nat -> bool, room: nat, out: seq<nat>)
  {
    && NoRepeats(out) && |out| <= room
    && (forall i, j :: 0 <= i < j < |out| ==> CreatedAt(db, out[i]) >= CreatedAt(db, out[j]))
    && (forall i :: 0 <= i < |out| ==> p(out[i]))
    && (forall k :: p(k) && k !in out ==>
          |out| == room && forall i :: 0 <= i < |out| ==> CreatedAt(db, out[i]) >= CreatedAt(db, k))
  }

  lemma NewestIsNewestByTime(db: Db, p: nat -> bool, room: nat, out: seq<nat>)
    requires IsNewest(db, p, room, out)
    ensures IsNewestByTime(db, p, room, out)
  {
    forall i, j | 0 <= i < j < |out| ensures out[i] != out[j] && CreatedAt(db, out[i]) >= CreatedAt(db, out[j]) {
      assert NewerKey(db, out[i], out[j]);
    }
    forall k, i | p(k) && k !in out && 0 <= i < |out| ensures CreatedAt(db, out[i]) >= CreatedAt(db, k) {
      assert NewerKey(db, out[i], k);
    }
  }

  /** One of the field's values, alone, lets the note under `k` through. */
  ghost predicate AcceptedForOne(db: Db, f: Filter, k: nat)
    requires f.tags.Some?
  {
    exists i :: 0 <= i < f.tags.value.values.Count() && Accepted(db, f.(tags := Some(Single(f.tags.value, i))), k)
  }

  /** So the newest accepted notes of a filter with many values are the newest of the union
      of those that its one-value filters accept. */
  lemma AnswerIsUnion(db: Db, f: Filter, room: nat, out: seq<nat>)
    requires f.tags.Some?
    ensures IsNewestByTime(db, (k: nat) => Accepted(db, f, k), room, out)
       <==> IsNewestByTime(db, (k: nat) => AcceptedForOne(db, f, k), room, out)
  {
    hide CreatedAt, Accepted;
    var p, q := (k: nat) => Accepted(db, f, k), (k: nat) => AcceptedForOne(db, f, k);
    forall k: nat ensures p(k) <==> q(k) {
      AcceptedByOneValue(db, f, k);
    }
  }

  // ---- the property pins the answer down ----

  lemma {:induction false} InsertKeyKeepsOrder(db: Db, k: nat, ks: seq<nat>)
    requires NewestFirst(db, ks) && k !in ks
    ensures NewestFirst(db, InsertKey(db, k, ks))
    ensures forall x :: x in InsertKey(db, k, ks) <==> x == k || x in ks
    decreases |ks|
  {
    if ks == [] || NewerKey(db, k, ks[0]) {
    } else {
      InsertKeyKeepsOrder(db, k, ks[1..]);
      var r := InsertKey(db, k, ks[1..]);
      assert ks == [ks[0]] + ks[1..];
      assert InsertKey(db, k, ks) == [ks[0]] + r;
      forall i | 0 <= i < |r| ensures NewerKey(db, ks[0], r[i]) {
        assert r[i] in r;
        if r[i] != k {
          var j :| 0 <= j < |ks[1..]| && ks[1..][j] == r[i];
          assert NewerKey(db, ks[0], ks[j + 1]);
        } else {
          assert ks[0] in ks;
        }
      }
    }
  }

  lemma {:induction false} AllAcceptedIsExact(db: Db, f: Filter, n: nat)
    ensures NewestFirst(db, AllAccepted(db, f, n))
    ensures forall k :: k in AllAccepted(db, f, n) <==> 1 <= k <= n && Accepted(db, f, k)
    decreases n
  {
    if n > 0 {
      AllAcceptedIsExact(db, f, n - 1);
      if Accepted(db, f, n) {
        InsertKeyKeepsOrder(db, n, AllAccepted(db, f, n - 1));
      }
    }
  }

  ghost function IndexOf(ks: seq<nat>, k: nat): (i: nat)
    requires k in ks
    ensures i < |ks| && ks[i] == k
  {
    var i :| 0 <= i < |ks| && ks[i] == k;
    i
  }

  lemma NewestHead(db: Db, p: nat -> bool, all: seq<nat>, room: nat, out: seq<nat>)
    requires NewestFirst(db, all) && forall k :: k in all <==> p(k)
    requires IsNewest(db, p, room, out) && room > 0 && all != []
    ensures out != [] && out[0] == all[0]
  {
    var a := all[0];
    assert a in all && p(a);
    assert out == [] ==> a !in out;
    if out != [] {
      var b := out[0];
      assert p(b) && b in all;
      var i :| 0 <= i < |all| && all[i] == b;
      assert i > 0 ==> NewerKey(db, a, b);
      assert a !in out ==> NewerKey(db, b, a);
      var j := if a in out then IndexOf(out, a) else 0;
      assert j > 0 ==> NewerKey(db, b, a);
    }
  }

  lemma HeadIsIn(ks: seq<nat>)
    ensures ks != [] ==> ks[0] in ks
  {
  }

  /** Taking the head off both lists leaves the same situation one smaller. */
  lemma NewestTail(db: Db, p: nat -> bool, all: seq<nat>, room: nat, out: seq<nat>, q: nat -> bool)
    requires NewestFirst(db, all) && forall k :: k in all <==> p(k)
    requires IsNewest(db, p, room, out) && room > 0 && all != [] && out != [] && out[0] == all[0]
    requires forall k :: q(k) <==> p(k) && k != all[0]
    ensures NewestFirst(db, all[1..]) && forall k :: k in all[1..] <==> q(k)
    ensures IsNewest(db, q, room - 1, out[1..])
  {
    assert all == [all[0]] + all[1..] && out == [out[0]] + out[1..];
    forall k ensures k in all[1..] <==> q(k) {
      if k in all[1..] {
        var i := IndexOf(all[1..], k);
        assert NewerKey(db, all[0], all[i + 1]);
        assert k in all;
      }
    }
    forall i | 0 <= i < |out[1..]| ensures q(out[1..][i]) {
      assert NewerKey(db, out[0], out[i + 1]);
    }
    forall k | q(k) && k !in out[1..]
      ensures |out[1..]| == room - 1 && forall i :: 0 <= i < |out[1..]| ==> NewerKey(db, out[1..][i], k)
    {
      assert k !in out;
    }
  }

  lemma {:induction false} NewestIsPrefix(db: Db, p: nat -> bool, all: seq<nat>, room: nat, out: seq<nat>)
    requires NewestFirst(db, all) && forall k :: k in all <==> p(k)
    requires IsNewest(db, p, room, out)
    ensures out == all[..Min(room, |all|)]
    decreases room
  {
    if room == 0 {
    } else if all == [] {
      HeadIsIn(out);
    } else {
      NewestHead(db, p, all, room, out);
      var q := (k: nat) => p(k) && k != all[0];
      NewestTail(db, p, all, room, out, q);
      NewestIsPrefix(db, q, all[1..], room - 1, out[1..]);
      assert out == [out[0]] + out[1..];
      assert all[..Min(room, |all|)] == [all[0]] + all[1..][..Min(room - 1, |all[1..]|)];
    }
  }

  /** An answer is the newest `room` accepted keys exactly when it is what
      filtering and sorting the whole note table gives. */
  lemma NewestIsBruteForce(db: Db, f: Filter, room: nat, out: seq<nat>)
    requires KeysAreConsecutive(db.rows)
    requires IsNewest(db, (k: nat) => Accepted(db, f, k), room, out)
    ensures out == BruteForce(db, f, room)
  {
    AllAcceptedIsExact(db, f, |db.rows|);
    var p := (k: nat) => Accepted(db, f, k);
    forall k ensures k in AllAccepted(db, f, |db.rows|) <==> p(k) {
      LookupConsecutive(db.rows, 0, k);
    }
    NewestIsPrefix(db, p, AllAccepted(db, f, |db.rows|), room, out);
  }
}
