/** The tag plan, which shares the tag index with keys cut to 255 bytes. */
module TagPlan {
  import opened Tables
  import opened Notes
  import opened Database
  import opened Filters
  import opened Answers
  import opened Query

  const MAX_TAG_VALUE := 246

  predicate OneValue(f: TagField)
  {
    f.values.Count() == 1
  }

  /** The bytes of the one value a filter wants. */
  function Wanted(f: TagField): seq<nat>
    requires OneValue(f)
  {
    match f.values
    case Ids(ids) => ids[0]
    case Strs(strs) => strs[0]
  }

  /** `ndb_encode_tag_key` makes a key of the value, its length cast to a byte. */
  predicate Encodes(f: TagField)
    requires OneValue(f)
  {
    |Wanted(f)| % 256 <= MAX_TAG_VALUE
  }

  /** The index can hold the wanted value: no entry is without a name or longer than a key. */
  predicate Reaches(f: TagField)
    requires OneValue(f)
  {
    f.tag != 0 && |Wanted(f)| <= MAX_TAG_VALUE
  }

  function TagGroup(f: TagField): seq<nat>
    requires OneValue(f)
  {
    [f.tag] + Wanted(f)
  }

  /** The index files tag `t` where the filter looks. */
  predicate Filed(f: TagField, t: Tag)
    requires OneValue(f)
  {
    TagEntry(t, 0, 0) != [] && TagEntry(t, 0, 0)[0].group == TagGroup(f)
  }

  /** A value as it is indexed, its length cast to a byte. */
  function Cut(val: seq<nat>): seq<nat>
  {
    val[..|val| % 256]
  }

  /** Tag `t` has the filter's name and its value, once cut, is the one wanted, yet it is
      no such tag: the value is longer, or of the other type, or the name is no packed
      string. */
  predicate Misfiled(f: TagField, t: Tag)
    requires OneValue(f)
  {
    && |t| >= 2 && t[0].CharAt(0) == f.tag && t[0].CharAt(1) == 0
    && Cut(t[1].Bytes()) == Wanted(f)
    && (|t[1].Bytes()| >= 256 || t[1].PackedId? != f.values.Ids? || t[0].PackedId? || |t[0].chars| > 2)
  }

  /** A tag is filed under the wanted group exactly when its name reads as the letter and
      its value, once cut, is the one wanted. */
  lemma FiledShape(f: TagField, t: Tag)
    requires OneValue(f)
    ensures Filed(f, t) <==> Reaches(f) && |t| >= 2 && t[0].CharAt(0) == f.tag && t[0].CharAt(1) == 0 && Cut(t[1].Bytes()) == Wanted(f)
  {
    hide DupRank, TagElem.CharAt;
    if |t| >= 2 {
      var val := t[1].Bytes();
      assert ([t[0].CharAt(0)] + Cut(val))[1..] == Cut(val) && TagGroup(f)[1..] == Wanted(f);
    }
  }

  lemma MatchShape(f: TagField, t: Tag)
    requires OneValue(f)
    ensures TagMatches(f, t) <==>
            && |t| >= 2 && t[0].CharAt(0) == f.tag && t[0].CharAt(1) == 0 && t[0].Str? && |t[0].chars| <= 2
            && t[1].PackedId? == f.values.Ids? && t[1].Bytes() == Wanted(f)
  {
    hide TagElem.CharAt;
  }

  lemma CutIsWhole(val: seq<nat>)
    ensures |val| < 256 <==> Cut(val) == val
  {
  }

  /** A tag is filed under the wanted group exactly when it matches or is misfiled, and
      never both. */
  lemma FiledIff(f: TagField, t: Tag)
    requires OneValue(f)
    ensures Filed(f, t) <==> Reaches(f) && (TagMatches(f, t) || Misfiled(f, t))
    ensures Reaches(f) ==> !(TagMatches(f, t) && Misfiled(f, t))
  {
    hide Filed, TagMatches, Cut, TagElem.CharAt, TagElem.Bytes;
    FiledShape(f, t);
    MatchShape(f, t);
    if |t| >= 2 {
      CutIsWhole(t[1].Bytes());
    }
  }

  /** The byte cast misfiles: a value of 257 bytes that starts with an "a" is found under
      "a", and does not match it. */
  lemma LongValueIsMisfiled(f: TagField, t: Tag, createdAt: nat, key: nat)
    requires f == TagField(116, Strs([[97]])) && t == [Str([116]), Str([97] + seq(256, _ => 98))]
    ensures !TagMatches(f, t) && Misfiled(f, t)
    ensures TagEntry(t, createdAt, key) == [Entry(TagGroup(f), createdAt % U32, DupRank(key))]
  {
    hide DupRank;
    var val := t[1].Bytes();
    assert |val| == 257 && Cut(val) == [97];
  }

  ghost predicate AnyFiled(f: TagField, n: Note)
    requires OneValue(f)
  {
    exists j :: 0 <= j < |n.body.tags| && Filed(f, n.body.tags[j])
  }

  lemma EntryOfTag(f: TagField, t: Tag, createdAt: nat, key: nat)
    requires OneValue(f)
    ensures Filed(f, t) <==> Entry(TagGroup(f), createdAt % U32, DupRank(key)) in TagEntry(t, createdAt, key)
    ensures forall e :: e in TagEntry(t, createdAt, key) ==> e.ts == createdAt % U32 && e.key == DupRank(key)
  {
    hide DupRank;
  }

  lemma {:induction false} FiledTags(f: TagField, ts: seq<Tag>, createdAt: nat, key: nat)
    requires OneValue(f)
    ensures (exists j :: 0 <= j < |ts| && Filed(f, ts[j]))
       <==> Entry(TagGroup(f), createdAt % U32, DupRank(key)) in TagEntries(ts, createdAt, key)
    ensures forall e :: e in TagEntries(ts, createdAt, key) && e.group == TagGroup(f) ==>
              e == Entry(TagGroup(f), createdAt % U32, DupRank(key))
    decreases |ts|
  {
    hide Filed, TagEntry, DupRank, TagGroup;
    if ts != [] {
      EntryOfTag(f, ts[0], createdAt, key);
      FiledTags(f, ts[1..], createdAt, key);
      var e := Entry(TagGroup(f), createdAt % U32, DupRank(key));
      if e in TagEntries(ts, createdAt, key) && e !in TagEntry(ts[0], createdAt, key) {
        var j :| 0 <= j < |ts[1..]| && Filed(f, ts[1..][j]);
        assert Filed(f, ts[j + 1]);
      }
      if j :| 0 <= j < |ts| && Filed(f, ts[j]) {
        if j > 0 { assert Filed(f, ts[1..][j - 1]); }
      }
    }
  }

  /** In the tag index, the wanted group holds one entry per note filed there. */
  lemma TagEntryAt(db: Db, f: TagField, j: nat) returns (i: nat)
    requires Exact(db) && Narrow(db) && OneValue(f)
    requires j < |db.tags| && db.tags[j].group == TagGroup(f)
    ensures i < |db.rows| && db.tags[j] == Entry(TagGroup(f), db.rows[i].note.body.createdAt, DupRank(i + 1))
    ensures AnyFiled(f, db.rows[i].note) && NoteKey(ByTag, db.tags[j]) == i + 1
  {
    hide TagEntries, Filed, DupRank, TagGroup, Sorted;
    assert ExactIndex(db, ByTag);
    var e := db.Table(ByTag)[j];
    assert Indexed(db.rows, ByTag, e);
    i :| 0 <= i < |db.rows| && e in Entries(ByTag, db.rows[i].note, db.rows[i].key);
    FiledTags(f, db.rows[i].note.body.tags, db.rows[i].note.body.createdAt, db.rows[i].key);
    DupRankInvolution(i + 1);
  }

  lemma TagEntryOf(db: Db, f: TagField, i: nat) returns (j: nat)
    requires Exact(db) && Narrow(db) && OneValue(f) && i < |db.rows| && AnyFiled(f, db.rows[i].note)
    ensures j < |db.tags| && db.tags[j] == Entry(TagGroup(f), db.rows[i].note.body.createdAt, DupRank(i + 1))
    ensures NoteKey(ByTag, db.tags[j]) == i + 1
  {
    hide TagEntries, Filed, DupRank, TagGroup, Sorted;
    assert ExactIndex(db, ByTag);
    FiledTags(f, db.rows[i].note.body.tags, db.rows[i].note.body.createdAt, db.rows[i].key);
    var e := Entry(TagGroup(f), db.rows[i].note.body.createdAt, DupRank(i + 1));
    assert e in Entries(ByTag, db.rows[i].note, db.rows[i].key);
    assert Indexed(db.rows, ByTag, e);
    j :| 0 <= j < |db.Table(ByTag)| && db.Table(ByTag)[j] == e;
    DupRankInvolution(i + 1);
  }

  /** The notes the plan takes: the tag field is not looked at again, so a tag filed
      where the filter looks is as good as one that matches. */
  ghost predicate Taken(db: Db, f: Filter, k: nat)
  {
    f.tags.Some? && OneValue(f.tags.value)
    && match db.NoteByKey(k)
       case Some(n) => MatchesWith(f, n, {TagsField}) && AnyFiled(f.tags.value, n)
       case None => false
  }

  ghost function FoundTags(db: Db, f: Filter): set<int>
    requires f.tags.Some? && OneValue(f.tags.value)
  {
    Passing(db, f, {TagsField}, ByTag, Windows(db.tags, [TagGroup(f.tags.value)], 0, UntilOf(f)))
  }

  lemma FoundTagIsTaken(db: Db, f: Filter, j: int)
    requires Exact(db) && Narrow(db) && f.tags.Some? && OneValue(f.tags.value)
    requires j in FoundTags(db, f)
    ensures Taken(db, f, NoteKey(ByTag, db.tags[j]))
    ensures CreatedAt(db, NoteKey(ByTag, db.tags[j])) == db.tags[j].ts
    ensures db.tags[j] == Entry(TagGroup(f.tags.value), db.tags[j].ts, DupRank(NoteKey(ByTag, db.tags[j])))
  {
    hide MatchesWith, ExactIndex, Filed, DupRank;
    var i := TagEntryAt(db, f.tags.value, j);
    LookupConsecutive(db.rows, 0, i + 1);
  }

  lemma TakenTagIsFound(db: Db, f: Filter, k: nat) returns (j: int)
    requires Exact(db) && Narrow(db) && f.tags.Some? && OneValue(f.tags.value)
    requires Taken(db, f, k)
    ensures j in FoundTags(db, f) && NoteKey(ByTag, db.tags[j]) == k
  {
    hide MatchesWith, ExactIndex, Filed, DupRank;
    LookupConsecutive(db.rows, 0, k);
    j := TagEntryOf(db, f.tags.value, k - 1);
    TagUntil(f, db.rows[k - 1].note);
    assert j in Windows(db.tags, [TagGroup(f.tags.value)], 0, UntilOf(f)) by {
      assert [TagGroup(f.tags.value)][0] == db.tags[j].group;
    }
  }

  /** Ties are broken by byte-swapped key here, so they are left free. */
  lemma TagsAnswer(db: Db, f: Filter, room: nat, picked: seq<int>, keys: seq<nat>)
    requires Exact(db) && Narrow(db) && f.tags.Some? && OneValue(f.tags.value)
    requires PickedNewest(db.tags, FoundTags(db, f), room, picked)
    requires KeysOf(ByTag, db.tags, picked, keys)
    ensures IsNewestByTime(db, (k: nat) => Taken(db, f, k), room, keys)
  {
    hide Exact, Narrow, FoundTags, Taken, CreatedAt, DupRank, Sorted, TagGroup;
    var t := db.tags;
    var p := (k: nat) => Taken(db, f, k);
    TagSorted(db);
    forall i | 0 <= i < |keys|
      ensures p(keys[i]) && CreatedAt(db, keys[i]) == t[picked[i]].ts
      ensures t[picked[i]] == Entry(TagGroup(f.tags.value), t[picked[i]].ts, DupRank(keys[i]))
    {
      FoundTagIsTaken(db, f, picked[i]);
    }
    forall i, j | 0 <= i < j < |keys| ensures keys[i] != keys[j] && CreatedAt(db, keys[i]) >= CreatedAt(db, keys[j]) {
      assert picked[i] != picked[j] && !NewerEntryOf(t, picked[j], picked[i]);
      SortedDistinct(t, picked[i], picked[j]);
    }
    forall k: nat | p(k) && k !in keys
      ensures |keys| == room && forall i :: 0 <= i < |keys| ==> CreatedAt(db, keys[i]) >= CreatedAt(db, k)
    {
      var j := TakenTagIsFound(db, f, k);
      FoundTagIsTaken(db, f, j);
      PickedKey(ByTag, t, picked, keys, j);
      forall i | 0 <= i < |keys| ensures CreatedAt(db, keys[i]) >= CreatedAt(db, k) {
        assert !NewerEntryOf(t, j, picked[i]);
      }
    }
  }

  ghost predicate NewerEntryOf(t: seq<Entry>, i: int, j: int)
    requires 0 <= i < |t| && 0 <= j < |t|
  {
    Merger.NewerEntry(t[i], t[j])
  }

  lemma TagSorted(db: Db)
    requires Exact(db)
    ensures Sorted(db.tags)
  {
    assert ExactIndex(db, ByTag);
    assert db.Table(ByTag) == db.tags;
  }

  lemma TagUntil(f: Filter, n: Note)
    requires MatchesWith(f, n, {TagsField}) && n.body.createdAt < U32
    ensures n.body.createdAt < UntilOf(f)
  {
  }

  lemma NothingTaken(db: Db, f: Filter, room: nat)
    requires f.tags.Some? && OneValue(f.tags.value) && !Reaches(f.tags.value)
    ensures IsNewestByTime(db, (k: nat) => Taken(db, f, k), room, [])
  {
    hide MatchesWith, Filed;
    forall t ensures !Filed(f.tags.value, t) {
      FiledIff(f.tags.value, t);
    }
  }

  /** `ndb_query_plan_execute_tags`. Only a single tag value is walked here, which
      is all the planner sends; the walk does not stop at `since`. A value whose cast
      length fits no key fails; one that is longer than a key is looked up by its first
      bytes and found at no entry, for want of its length. */
  method ExecuteTags(db: Db, f: Filter, st: QueryState) returns (ok: bool, results: seq<nat>)
    requires Exact(db) && Narrow(db)
    requires f.tags.Some? ==> OneValue(f.tags.value)
    ensures ok <==> f.tags.Some? && Encodes(f.tags.value)
    ensures ok ==> IsNewestByTime(db, (k: nat) => Taken(db, f, k), st.Room(), results)
  {
    results := [];
    ok := f.tags.Some? && Encodes(f.tags.value);
    if ok {
      if |Wanted(f.tags.value)| > MAX_TAG_VALUE {
        NothingTaken(db, f, st.Room());
      } else {
        TagSorted(db);
        ghost var picked;
        results, picked := WalkGroup(db, f, st, ByTag, TagGroup(f.tags.value), 0, UntilOf(f), {TagsField}, []);
        TagsAnswer(db, f, st.Room(), picked, results);
      }
    }
  }

  // ---- when it is the right answer ----

  /** A note taken for a misfiled tag alone. */
  ghost predicate Stray(db: Db, f: Filter, k: nat)
  {
    Taken(db, f, k) && !Accepted(db, f, k)
  }

  /** What is taken is what is accepted, and the strays; if the index cannot hold the
      value, nothing is taken at all. */
  lemma TakenIff(db: Db, f: Filter, k: nat)
    requires f.tags.Some? && OneValue(f.tags.value)
    ensures Taken(db, f, k) <==> Reaches(f.tags.value) && (Accepted(db, f, k) || Stray(db, f, k))
    ensures Stray(db, f, k) ==> match db.NoteByKey(k)
      case Some(n) => !AnyTagMatches(f.tags.value, n) && exists j :: 0 <= j < |n.body.tags| && Misfiled(f.tags.value, n.body.tags[j])
      case None => false
  {
    hide Filed, Misfiled, TagMatches, Lookup, Reaches;
    match db.NoteByKey(k) {
      case None =>
      case Some(n) =>
        forall t ensures Filed(f.tags.value, t) <==> Reaches(f.tags.value) && (TagMatches(f.tags.value, t) || Misfiled(f.tags.value, t)) {
          FiledIff(f.tags.value, t);
        }
    }
  }

  /** The newest of more notes are the newest of fewer exactly when they are of the fewer. */
  lemma NewestOfFewerIff(db: Db, p: nat -> bool, q: nat -> bool, room: nat, keys: seq<nat>)
    requires IsNewestByTime(db, p, room, keys) && forall k :: q(k) ==> p(k)
    ensures IsNewestByTime(db, q, room, keys) <==> forall i :: 0 <= i < |keys| ==> q(keys[i])
  {
    hide CreatedAt;
  }

  /** The plan's answer is the newest accepted notes exactly when no stray gets in. */
  lemma TagAnswerIff(db: Db, f: Filter, room: nat, keys: seq<nat>)
    requires f.tags.Some? && OneValue(f.tags.value) && Reaches(f.tags.value)
    requires IsNewestByTime(db, (k: nat) => Taken(db, f, k), room, keys)
    ensures IsNewestByTime(db, (k: nat) => Accepted(db, f, k), room, keys)
       <==> forall i :: 0 <= i < |keys| ==> !Stray(db, f, keys[i])
  {
    hide CreatedAt, Taken, Accepted, Reaches;
    var p, q := (k: nat) => Taken(db, f, k), (k: nat) => Accepted(db, f, k);
    forall k: nat ensures q(k) ==> p(k) {
      TakenIff(db, f, k);
    }
    NewestOfFewerIff(db, p, q, room, keys);
    assert forall i :: 0 <= i < |keys| ==> p(keys[i]);
  }

  /** And a stray does get in wherever there is room to spare. */
  lemma StrayGetsIn(db: Db, f: Filter, room: nat, keys: seq<nat>, k: nat)
    requires f.tags.Some? && OneValue(f.tags.value) && Stray(db, f, k)
    requires IsNewestByTime(db, (k: nat) => Taken(db, f, k), room, keys) && |keys| < room
    ensures k in keys && !IsNewestByTime(db, (k: nat) => Accepted(db, f, k), room, keys)
  {
    hide CreatedAt, Taken, Accepted;
    var p := (k: nat) => Taken(db, f, k);
    assert p(k);
    TakenIff(db, f, k);
    TagAnswerIff(db, f, room, keys);
  }

  /** In any store, a note with that tag is a stray of the filter for "a". */
  lemma LongValueIsStray(db: Db, f: Filter, i: nat)
    requires Exact(db) && i < |db.rows| && f.tags == Some(TagField(116, Strs([[97]])))
    requires db.rows[i].note.body.tags == [[Str([116]), Str([97] + seq(256, _ => 98))]]
    requires MatchesWith(f, db.rows[i].note, {TagsField})
    ensures Stray(db, f, i + 1)
  {
    hide MatchesWith, Exact, TagMatches, Filed, Misfiled;
    RowsConsecutive(db);
    LookupConsecutive(db.rows, 0, i + 1);
    var n := db.rows[i].note;
    LongValueIsMisfiled(f.tags.value, n.body.tags[0], 0, 0);
    FiledIff(f.tags.value, n.body.tags[0]);
    assert Filed(f.tags.value, n.body.tags[0]);
    NoMatchNoAccept(f, n);
  }

  lemma RowsConsecutive(db: Db)
    requires Exact(db)
    ensures KeysAreConsecutive(db.rows)
  {
  }

  lemma NoMatchNoAccept(f: Filter, n: Note)
    requires f.tags.Some? && !AnyTagMatches(f.tags.value, n)
    ensures !FilterMatches(f, n)
  {
  }
}

/** `ndb_query` for one filter. */
module QueryEngine {
  import opened Basics
  import opened Tables
  import opened Notes
  import opened Database
  import opened Filters
  import opened Answers
  import opened Query
  import opened TagPlan

  /** A filter without repeated kinds or authors, within 32 bits, and without relays,
      that the planner sends to one of the time-ordered plans. */
  ghost predicate InDomain(f: Filter)
  {
    && !f.relays && PlanFor(f) in {Created, Kinds, AuthorKinds, Authors, Tags}
    && (f.kinds.Some? ==> PlainKinds(f.kinds.value))
    && (f.authors.Some? ==> NoRepeats(f.authors.value))
  }

  /** Those are the filters without ids, search or relays, whose buffer was allocated. */
  lemma InDomainIff(f: Filter)
    ensures InDomain(f) <==>
      && !f.unset && !f.search && !f.relays && f.ids.None?
      && (f.kinds.Some? ==> PlainKinds(f.kinds.value))
      && (f.authors.Some? ==> NoRepeats(f.authors.value))
  {
    hide PlainKinds, NoRepeats;
  }

  /** Which plan they get: authors with kinds if they are few, then a lone author, then a
      lone tag value, then kinds. */
  lemma PlanIff(f: Filter)
    requires InDomain(f)
    ensures PlanFor(f) == AuthorKinds
       <==> f.authors.Some? && f.kinds.Some? && (|f.authors.value| == 1 || |f.authors.value| * |f.kinds.value| <= 64)
    ensures PlanFor(f) == Authors <==> f.authors.Some? && f.kinds.None? && |f.authors.value| == 1
    ensures PlanFor(f) == Tags
       <==> f.tags.Some? && f.tags.value.values.Count() == 1 && PlanFor(f) != AuthorKinds && PlanFor(f) != Authors
    ensures PlanFor(f) == Kinds <==> f.kinds.Some? && PlanFor(f) != AuthorKinds && PlanFor(f) != Tags
  {
    hide PlainKinds, NoRepeats;
  }

  /** The plan runs, unless it is the tag plan and the wanted value makes no key. */
  predicate Runs(f: Filter)
  {
    PlanFor(f) == Tags ==> Encodes(f.tags.value)
  }

  /** The index that the plan walks can hold what is wanted. */
  predicate Reachable(f: Filter)
  {
    PlanFor(f) == Tags ==> Reaches(f.tags.value)
  }

  /** What the picked plan answers from: the notes that the filter accepts, but for the
      tag plan those that the index files under the wanted value. */
  ghost predicate Served(db: Db, f: Filter, k: nat)
  {
    if PlanFor(f) == Tags then Taken(db, f, k) else Accepted(db, f, k)
  }

  /** `ndb_query_filter`: run the plan into an empty buffer. The time-ordered
      plans other than the tag plan give exactly the brute-force list. */
  method QueryFilter(db: Db, f: Filter, st: QueryState) returns (ok: bool, results: seq<nat>)
    requires Exact(db) && Narrow(db) && InDomain(f)
    ensures ok <==> Runs(f)
    ensures ok ==> IsNewestByTime(db, (k: nat) => Served(db, f, k), st.Room(), results)
    ensures PlanFor(f) != Tags ==> results == BruteForce(db, f, st.Room())
  {
    hide Exact, Narrow, Taken, Accepted, IsNewestByTime, BruteForce;
    match PlanFor(f) {
      case Created => ok, results := ExecuteCreated(db, f, st);
      case Kinds => ok, results := ExecuteKinds(db, f, st);
      case AuthorKinds => ok, results := ExecuteAuthorKinds(db, f, st);
      case Authors => ok, results := ExecuteAuthors(db, f, st);
      case Tags => ok, results := ExecuteTags(db, f, st);
    }
    if PlanFor(f) != Tags {
      NewestIsNewestByTime(db, (k: nat) => Accepted(db, f, k), st.Room(), results);
      SameNotes(db, (k: nat) => Accepted(db, f, k), (k: nat) => Served(db, f, k), st.Room(), results);
    } else if ok {
      SameNotes(db, (k: nat) => Taken(db, f, k), (k: nat) => Served(db, f, k), st.Room(), results);
    }
  }

  lemma SameNotes(db: Db, p: nat -> bool, q: nat -> bool, room: nat, keys: seq<nat>)
    requires IsNewestByTime(db, p, room, keys) && forall k :: p(k) <==> q(k)
    ensures IsNewestByTime(db, q, room, keys)
  {
    hide CreatedAt;
  }

  /** An answer is the newest accepted notes if and only if nothing in it is a stray of
      the tag plan; the other plans have none. */
  lemma RightAnswerIff(db: Db, f: Filter, room: nat, keys: seq<nat>)
    requires InDomain(f) && Reachable(f) && IsNewestByTime(db, (k: nat) => Served(db, f, k), room, keys)
    ensures IsNewestByTime(db, (k: nat) => Accepted(db, f, k), room, keys)
       <==> forall i :: 0 <= i < |keys| ==> !(PlanFor(f) == Tags && Stray(db, f, keys[i]))
  {
    hide IsNewestByTime, Taken, Accepted, Reaches;
    if PlanFor(f) == Tags {
      SameNotes(db, (k: nat) => Served(db, f, k), (k: nat) => Taken(db, f, k), room, keys);
      TagAnswerIff(db, f, room, keys);
    } else {
      SameNotes(db, (k: nat) => Served(db, f, k), (k: nat) => Accepted(db, f, k), room, keys);
    }
  }

  /** What a filter accepts is served, if the index can hold what it wants. */
  lemma AcceptedIsServed(db: Db, f: Filter, k: nat)
    requires InDomain(f) && Reachable(f) && Accepted(db, f, k)
    ensures Served(db, f, k)
  {
    hide Taken, Accepted, Reaches;
    if PlanFor(f) == Tags { TakenIff(db, f, k); }
  }

  lemma FirstIsOne(db: Db, p: nat -> bool, room: nat, keys: seq<nat>)
    requires IsNewestByTime(db, p, room, keys)
    ensures keys == [] || exists k :: p(k)
  {
    hide CreatedAt;
    assert keys == [] || p(keys[0]);
  }

  lemma NoneIsEmpty(db: Db, p: nat -> bool, room: nat, keys: seq<nat>)
    requires IsNewestByTime(db, p, room, keys) && forall k :: !p(k)
    ensures keys == []
  {
    FirstIsOne(db, p, room, keys);
  }

  /** If the index cannot hold what is wanted, nothing is served: right if and only if
      nothing is accepted, or there is no room. */
  lemma UnreachableIff(db: Db, f: Filter, room: nat, keys: seq<nat>)
    requires InDomain(f) && !Reachable(f) && IsNewestByTime(db, (k: nat) => Served(db, f, k), room, keys)
    ensures keys == []
    ensures IsNewestByTime(db, (k: nat) => Accepted(db, f, k), room, keys)
       <==> room == 0 || forall k :: !Accepted(db, f, k)
  {
    hide Taken, Accepted, Reaches, CreatedAt;
    forall k ensures !Served(db, f, k) {
      TakenIff(db, f, k);
    }
    var p, q := (k: nat) => Served(db, f, k), (k: nat) => Accepted(db, f, k);
    assert forall k: nat :: q(k) <==> Accepted(db, f, k);
    NoneIsEmpty(db, p, room, keys);
  }

  ghost predicate LatestFirst(db: Db, ks: seq<nat>)
  {
    forall i, j :: 0 <= i < j < |ks| ==> CreatedAt(db, ks[i]) >= CreatedAt(db, ks[j])
  }

  function InsertByTime(db: Db, k: nat, ks: seq<nat>): seq<nat>
  {
    if ks == [] || CreatedAt(db, k) >= CreatedAt(db, ks[0]) then [k] + ks else [ks[0]] + InsertByTime(db, k, ks[1..])
  }

  lemma {:induction false} InsertByTimeKeeps(db: Db, k: nat, ks: seq<nat>)
    ensures multiset(InsertByTime(db, k, ks)) == multiset(ks) + multiset{k}
    ensures forall x :: x in InsertByTime(db, k, ks) <==> x == k || x in ks
    decreases |ks|
  {
    hide CreatedAt;
    if ks != [] && CreatedAt(db, k) < CreatedAt(db, ks[0]) {
      InsertByTimeKeeps(db, k, ks[1..]);
      assert ks == [ks[0]] + ks[1..];
    }
  }

  lemma {:induction false} InsertByTimeSorts(db: Db, k: nat, ks: seq<nat>)
    requires LatestFirst(db, ks)
    ensures LatestFirst(db, InsertByTime(db, k, ks))
    decreases |ks|
  {
    hide CreatedAt;
    if ks != [] && CreatedAt(db, k) < CreatedAt(db, ks[0]) {
      InsertByTimeSorts(db, k, ks[1..]);
      InsertByTimeKeeps(db, k, ks[1..]);
      assert ks == [ks[0]] + ks[1..];
      LatestCons(db, ks[0], InsertByTime(db, k, ks[1..]), k, ks[1..]);
    }
  }

  lemma LatestCons(db: Db, first: nat, r: seq<nat>, k: nat, rest: seq<nat>)
    requires LatestFirst(db, r) && LatestFirst(db, [first] + rest) && CreatedAt(db, first) >= CreatedAt(db, k)
    requires forall x :: x in r ==> x == k || x in rest
    ensures LatestFirst(db, [first] + r)
  {
    hide CreatedAt;
    forall i | 0 <= i < |r| ensures CreatedAt(db, first) >= CreatedAt(db, r[i]) {
      assert r[i] in r;
      if r[i] != k {
        var j := IndexOf(rest, r[i]);
        assert ([first] + rest)[0] == first && ([first] + rest)[j + 1] == r[i];
      }
    }
  }

  /** `qsort` with `compare_query_results`: some order by descending time. */
  method SortByTime(db: Db, raw: seq<nat>) returns (sorted: seq<nat>)
    ensures multiset(sorted) == multiset(raw)
    ensures LatestFirst(db, sorted)
  {
    sorted := [];
    var i := 0;
    while i < |raw|
      invariant 0 <= i <= |raw|
      invariant multiset(sorted) == multiset(raw[..i])
      invariant LatestFirst(db, sorted)
    {
      assert raw[..i + 1] == raw[..i] + [raw[i]];
      InsertByTimeSorts(db, raw[i], sorted);
      InsertByTimeKeeps(db, raw[i], sorted);
      sorted := InsertByTime(db, raw[i], sorted);
      i := i + 1;
    }
    assert raw[..i] == raw;
  }

  lemma SortKeepsNewest(db: Db, p: nat -> bool, room: nat, raw: seq<nat>, sorted: seq<nat>)
    requires IsNewestByTime(db, p, room, raw)
    requires multiset(sorted) == multiset(raw)
    requires LatestFirst(db, sorted)
    ensures IsNewestByTime(db, p, room, sorted)
  {
    assert |sorted| == |multiset(sorted)| && |raw| == |multiset(raw)|;
    forall x ensures x in sorted <==> x in raw {
      assert x in multiset(sorted) <==> x in multiset(raw);
    }
    forall i, j | 0 <= i < j < |sorted| ensures sorted[i] != sorted[j] {
      RepeatedTwice(sorted, i, j);
      DistinctOnce(raw, sorted[i]);
    }
    forall i | 0 <= i < |sorted| ensures p(sorted[i]) && sorted[i] in raw {
      assert sorted[i] in sorted;
      var x := IndexOf(raw, sorted[i]);
    }
    forall k: nat | p(k) && k !in sorted
      ensures |sorted| == room && forall i :: 0 <= i < |sorted| ==> CreatedAt(db, sorted[i]) >= CreatedAt(db, k)
    {
      forall i | 0 <= i < |sorted| ensures CreatedAt(db, sorted[i]) >= CreatedAt(db, k) {
        var x := IndexOf(raw, sorted[i]);
      }
    }
  }

  lemma RepeatedTwice(s: seq<nat>, i: nat, j: nat)
    requires i < j < |s|
    ensures s[i] == s[j] ==> multiset(s)[s[i]] >= 2
  {
    assert s == s[..i] + [s[i]] + s[i + 1..j] + [s[j]] + s[j + 1..];
  }

  lemma {:induction false} DistinctOnce(s: seq<nat>, x: nat)
    requires NoRepeats(s)
    ensures multiset(s)[x] <= 1
    decreases |s|
  {
    if s != [] {
      DistinctOnce(s[1..], x);
      assert s == [s[0]] + s[1..];
      forall i | 0 <= i < |s[1..]| ensures s[1..][i] != s[0] {
        assert s[i + 1] != s[0];
      }
    }
  }

  /** `ndb_query` with a single filter: whichever time-ordered plan is picked, the
      result is the newest `room` notes it serves, in descending `created_at`; and
      those are the newest that `ndb_filter_matches` accepts, if and only if no stray of
      the tag plan is among them. */
  method RunQuery(db: Db, f: Filter, capacity: nat) returns (ok: bool, results: seq<nat>)
    requires Exact(db) && Narrow(db) && InDomain(f)
    ensures ok <==> Runs(f)
    ensures ok ==> IsAnswerTo(db, f, capacity, results)
  {
    hide Exact, Narrow, InDomain, IsNewestByTime, Served, Accepted, Stray, PlanFor, FillLimit;
    var st := QueryState(capacity, FillLimit(f, capacity));
    var raw;
    ok, raw := QueryFilter(db, f, st);
    results := SortByTime(db, raw);
    if ok {
      SortKeepsNewest(db, (k: nat) => Served(db, f, k), st.Room(), raw, results);
      ServedIsAnswer(db, f, capacity, results);
    }
  }

  ghost predicate IsAnswerTo(db: Db, f: Filter, capacity: nat, results: seq<nat>)
  {
    var room := Room(capacity, FillLimit(f, capacity));
    && IsNewestByTime(db, (k: nat) => Served(db, f, k), room, results)
    && (Reachable(f) ==>
          (IsNewestByTime(db, (k: nat) => Accepted(db, f, k), room, results)
           <==> forall i :: 0 <= i < |results| ==> !(PlanFor(f) == Tags && Stray(db, f, results[i]))))
  }

  lemma ServedIsAnswer(db: Db, f: Filter, capacity: nat, results: seq<nat>)
    requires InDomain(f) && IsNewestByTime(db, (k: nat) => Served(db, f, k), Room(capacity, FillLimit(f, capacity)), results)
    ensures IsAnswerTo(db, f, capacity, results)
  {
    hide IsNewestByTime, Served, Accepted, Stray;
    if Reachable(f) { RightAnswerIff(db, f, Room(capacity, FillLimit(f, capacity)), results); }
  }

  /** Tied to the write path: the same holds for the store that any run of the
      writer leaves behind. */
  method RunQueryAfterWrites(committed: Id -> Body, actions: seq<Action>, f: Filter, capacity: nat)
    returns (ok: bool, results: seq<nat>)
    requires |actions| < U32
    requires forall i :: 0 <= i < |actions| && actions[i].Push? ==> Honest(committed, actions[i].note)
    requires InDomain(f)
    ensures ok <==> Runs(f)
    ensures ok ==> IsAnswerTo(Run(Writer(EMPTY, []), actions).db, f, capacity, results)
  {
    EveryRunIsExact(committed, actions);
    ok, results := RunQuery(Run(Writer(EMPTY, []), actions).db, f, capacity);
  }

  // ---- several filters ----

  function Union(answers: seq<seq<nat>>): multiset<nat>
  {
    if answers == [] then multiset{} else Union(answers[..|answers| - 1]) + multiset(answers[|answers| - 1])
  }

  /** `out` is the newest `room` of `all`, repetitions included. */
  ghost predicate IsNewestOf(db: Db, all: multiset<nat>, room: nat, out: seq<nat>)
  {
    && LatestFirst(db, out) && multiset(out) <= all && |out| == Min(room, |all|)
    && forall k, i :: k in all - multiset(out) && 0 <= i < |out| ==> CreatedAt(db, out[i]) >= CreatedAt(db, k)
  }

  lemma LeftBehind(sorted: seq<nat>, n: nat, k: nat) returns (j: nat)
    requires n <= |sorted| && k in multiset(sorted) - multiset(sorted[..n])
    ensures n <= j < |sorted| && sorted[j] == k
  {
    assert sorted == sorted[..n] + sorted[n..];
    assert k in sorted[n..];
    j := n + IndexOf(sorted[n..], k);
  }

  lemma PrefixMultiset(s: seq<nat>, n: nat)
    requires n <= |s|
    ensures multiset(s[..n]) <= multiset(s) && |multiset(s)| == |s|
  {
    assert s == s[..n] + s[n..];
  }

  lemma TakeNewest(db: Db, sorted: seq<nat>, room: nat)
    requires LatestFirst(db, sorted)
    ensures IsNewestOf(db, multiset(sorted), room, sorted[..Min(room, |sorted|)])
  {
    hide CreatedAt;
    var n := Min(room, |sorted|);
    var out := sorted[..n];
    PrefixMultiset(sorted, n);
    forall k, i | k in multiset(sorted) - multiset(out) && 0 <= i < |out|
      ensures CreatedAt(db, out[i]) >= CreatedAt(db, k)
    {
      var j := LeftBehind(sorted, n, k);
    }
  }

  ghost predicate AnswersFor(db: Db, fs: seq<Filter>, capacity: nat, answers: seq<seq<nat>>)
  {
    |answers| <= |fs| && forall i :: 0 <= i < |answers| ==>
      IsNewestByTime(db, (k: nat) => Served(db, fs[i], k), Room(capacity, FillLimit(fs[i], capacity)), answers[i])
  }

  lemma AnotherAnswer(db: Db, fs: seq<Filter>, capacity: nat, answers: seq<seq<nat>>, a: seq<nat>)
    requires AnswersFor(db, fs, capacity, answers) && |answers| < |fs|
    requires IsNewestByTime(db, (k: nat) => Served(db, fs[|answers|], k), Room(capacity, FillLimit(fs[|answers|], capacity)), a)
    ensures AnswersFor(db, fs, capacity, answers + [a]) && Union(answers + [a]) == Union(answers) + multiset(a)
  {
    hide IsNewestByTime, Served, Room, FillLimit;
    assert (answers + [a])[..|answers|] == answers;
  }

  lemma OneAnswer(db: Db, capacity: nat, f: Filter, a: seq<nat>)
    requires IsNewestByTime(db, (k: nat) => Served(db, f, k), Room(capacity, FillLimit(f, capacity)), a)
    ensures IsNewestOf(db, multiset(a), capacity, a)
  {
    TakeNewest(db, a, capacity);
    assert |a| <= capacity && a[..|a|] == a;
  }

  /** `ndb_query`: with several filters, each answers into a buffer of its own, and the
      newest of all the answers together are the result. */
  method RunQueries(db: Db, fs: seq<Filter>, capacity: nat) returns (ok: bool, results: seq<nat>, ghost answers: seq<seq<nat>>)
    requires Exact(db) && Narrow(db) && forall i :: 0 <= i < |fs| ==> InDomain(fs[i])
    ensures ok <==> fs != [] && forall i :: 0 <= i < |fs| ==> Runs(fs[i])
    ensures AnswersFor(db, fs, capacity, answers)
    ensures ok ==> |answers| == |fs| && IsNewestOf(db, Union(answers), capacity, results)
  {
    hide Exact, Narrow, InDomain, IsNewestByTime, IsNewestOf, Served, Accepted, Stray, CreatedAt, PlanFor, Runs, Reachable;
    ok, results, answers := fs != [], [], [];
    if |fs| == 1 {
      ok, results := RunQuery(db, fs[0], capacity);
      if ok {
        AnotherAnswer(db, fs, capacity, [], results);
        OneAnswer(db, capacity, fs[0], results);
        answers := [] + [results];
        assert Union([]) + multiset(results) == multiset(results);
      }
    } else {
      var tmp := [];
      var i := 0;
      while ok && i < |fs|
        invariant 0 <= i <= |fs| && |answers| <= i
        invariant ok ==> fs != [] && |answers| == i && forall k :: 0 <= k < i ==> Runs(fs[k])
        invariant !ok ==> fs == [] || exists k :: 0 <= k < |fs| && !Runs(fs[k])
        invariant AnswersFor(db, fs, capacity, answers)
        invariant multiset(tmp) == Union(answers)
        decreases |fs| - i, ok
      {
        var st := QueryState(capacity, FillLimit(fs[i], capacity));
        var buf;
        ok, buf := QueryFilter(db, fs[i], st);
        if ok {
          AnotherAnswer(db, fs, capacity, answers, buf);
          answers := answers + [buf];
          tmp := tmp + buf;
          i := i + 1;
        }
      }
      if ok {
        tmp := SortByTime(db, tmp);
        TakeNewest(db, tmp, capacity);
        results := tmp[..Min(capacity, |tmp|)];
      }
    }
  }

  lemma {:induction false} AnswerInUnion(answers: seq<seq<nat>>, i: nat)
    requires i < |answers|
    ensures multiset(answers[i]) <= Union(answers)
    decreases |answers|
  {
    if i < |answers| - 1 {
      AnswerInUnion(answers[..|answers| - 1], i);
    }
  }

  /** Distinct elements of `a` all beat `out[j]`, so they are all in `out`, beside it. */
  lemma BeatenByAll(db: Db, all: multiset<nat>, room: nat, out: seq<nat>, a: seq<nat>, j: nat)
    requires IsNewestOf(db, all, room, out) && NoRepeats(a) && multiset(a) <= all && j < |out|
    requires forall i :: 0 <= i < |a| ==> CreatedAt(db, a[i]) > CreatedAt(db, out[j])
    ensures |a| < |out|
  {
    hide CreatedAt;
    forall x ensures (multiset(a) + multiset{out[j]})[x] <= multiset(out)[x] {
      DistinctOnce(a, x);
      if x in a {
        var i := IndexOf(a, x);
        assert x !in all - multiset(out);
        assert multiset(out)[x] >= 1 && x != out[j];
      } else {
        assert out[j] in multiset(out);
      }
    }
    assert multiset(a) + multiset{out[j]} <= multiset(out);
    SubMultiset(multiset(a) + multiset{out[j]}, multiset(out));
    assert |multiset(a)| == |a| && |multiset(out)| == |out|;
  }

  lemma SubMultiset(a: multiset<nat>, b: multiset<nat>)
    requires a <= b
    ensures |a| <= |b|
  {
    assert b == a + (b - a);
  }

  /** So no filter is starved by the others: if its own limit does not cut it short, a note
      it serves is left out only when all results are at least as new. */
  lemma MergedMissesNothing(db: Db, fs: seq<Filter>, capacity: nat, answers: seq<seq<nat>>, out: seq<nat>, i: nat, k: nat, j: nat)
    requires AnswersFor(db, fs, capacity, answers) && IsNewestOf(db, Union(answers), capacity, out) && i < |answers|
    requires Room(capacity, FillLimit(fs[i], capacity)) == capacity && Served(db, fs[i], k) && k !in out && j < |out|
    ensures CreatedAt(db, out[j]) >= CreatedAt(db, k)
  {
    hide Room, FillLimit, CreatedAt, Served;
    var p := (x: nat) => Served(db, fs[i], x);
    assert IsNewestByTime(db, p, capacity, answers[i]);
    AnswerInUnion(answers, i);
    if k in answers[i] {
      assert k in multiset(answers[i]) && k in Union(answers) - multiset(out);
    } else {
      assert p(k);
      assert |answers[i]| == capacity;
      if CreatedAt(db, out[j]) < CreatedAt(db, k) {
        BeatenByAll(db, Union(answers), capacity, out, answers[i], j);
      }
    }
  }
}
