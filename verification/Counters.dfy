/** Per-note counters as the writer keeps them (`ndb_process_note_stats` and its kin). */
module Counters {
  import opened Notes
  import opened Tables
  import M = MetadataRows

  // One increment of one counter of a note's metadata row.
  datatype Change = AddReaction(reaction: nat) | AddTotal | AddQuote | AddDirect | AddThread | AddRepost

  type Metas = map<Id, M.Row>

  const U16: nat := 0x1_0000

  function KeyFor(c: Change): (k: M.SortKey)
    ensures M.CountsKey(k)
  {
    if c.AddReaction? then M.SortKey(M.REACTION, c.reaction) else M.SortKey(M.COUNTS, 0)
  }

  /** A new entry with its first count (`ndb_note_meta_counts_set`, `ndb_note_meta_reaction_set`). */
  function First(c: Change): (e: M.Entry)
    ensures e.Key() == KeyFor(c)
  {
    match c
    case AddReaction(r) => M.Reaction(r, 1)
    case AddTotal => M.Counts(1, 0, 0, 0, 0)
    case AddRepost => M.Counts(0, 1, 0, 0, 0)
    case AddDirect => M.Counts(0, 0, 1, 0, 0)
    case AddQuote => M.Counts(0, 0, 0, 1, 0)
    case AddThread => M.Counts(0, 0, 0, 0, 1)
  }

  /** One more, in a field of 16 or 32 bits. */
  function Increment(c: Change, e: M.Entry): (e': M.Entry)
    requires e.Key() == KeyFor(c)
    ensures e'.Key() == KeyFor(c)
  {
    match c
    case AddReaction(_) => e.(count := (e.count + 1) % U32)
    case AddTotal => e.(total := (e.total + 1) % U32)
    case AddRepost => e.(reposts := (e.reposts + 1) % U16)
    case AddDirect => e.(direct := (e.direct + 1) % U16)
    case AddQuote => e.(quotes := (e.quotes + 1) % U16)
    case AddThread => e.(thread := (e.thread + 1) % U32)
  }

  function Changed(row: M.Row, c: Change): (e: M.Entry)
    ensures e.Key() == KeyFor(c)
  {
    match M.Lookup(row, KeyFor(c))
    case None => First(c)
    case Some(e) => LookupKey(row, KeyFor(c)); Increment(c, e)
  }

  lemma LookupKey(row: M.Row, k: M.SortKey)
    ensures M.Lookup(row, k).Some? ==> M.Lookup(row, k).value.Key() == k
  {
  }

  function Bumped(row: M.Row, c: Change): M.Row
  {
    M.Upsert(row, Changed(row, c))
  }

  function RowAt(ms: Metas, id: Id): M.Row
  {
    if id in ms then ms[id] else []
  }

  function Bump(ms: Metas, id: Id, c: Change): Metas
  {
    ms[id := Bumped(RowAt(ms, id), c)]
  }

  function BumpAll(ms: Metas, cs: seq<(Id, Change)>): Metas
    decreases |cs|
  {
    if cs == [] then ms else BumpAll(Bump(ms, cs[0].0, cs[0].1), cs[1..])
  }

  // ---- which counters a note moves ----

  const E := 101
  const Q := 113

  /** Up to two characters a string is packed in place, and only then does it carry
      the flag that marks it as a packed string. */
  predicate PackedStr(e: TagElem)
  {
    e.Str? && |e.chars| <= 2
  }

  /** Tag `t` refers to an event id under a packed name starting with `c`. */
  predicate Refers(t: Tag, c: nat)
  {
    |t| >= 2 && PackedStr(t[0]) && t[0].CharAt(0) == c && t[1].PackedId?
  }

  /** `ndb_note_last_id_tag` */
  function LastId(ts: seq<Tag>, c: nat): Option<Id>
  {
    if ts == [] then None
    else
      var t := ts[|ts| - 1];
      if Refers(t, c) then Some(t[1].id) else LastId(ts[..|ts| - 1], c)
  }

  /** `ndb_note_first_tag_id` */
  function FirstId(ts: seq<Tag>, c: nat): Option<Id>
  {
    if ts == [] then None
    else if Refers(ts[0], c) then Some(ts[0][1].id)
    else FirstId(ts[1..], c)
  }

  // `ndb_parse_reply` part way through the tags.
  datatype Reply = Reply(root: Option<Id>, reply: Option<Id>, mention: Option<Id>, anyMarker: bool, first: bool)

  const NO_REPLY := Reply(None, None, None, false, true)
  const ROOT := [114, 111, 111, 116]
  const REPLY := [114, 101, 112, 108, 121]
  const MENTION := [109, 101, 110, 116, 105, 111, 110]

  /** One `e` tag: a marker decides, or, until one is seen, the position. A marker is
      only looked at when it is a packed string. */
  function ReplyTag(r: Reply, t: Tag): Reply
    requires Refers(t, E)
  {
    var id := Some(t[1].id);
    if |t| >= 4 && PackedStr(t[3]) then
      var m := r.(anyMarker := true);
      if t[3].chars == ROOT then m.(root := id)
      else if t[3].chars == REPLY then m.(reply := id)
      else if t[3].chars == MENTION then m.(mention := id)
      else m
    else if !r.anyMarker && r.first then r.(root := id, first := false)
    else if !r.anyMarker && r.reply.None? then r.(reply := id)
    else r
  }

  /** So no marker of NIP-10 is ever recognised: all three are longer than a packed
      string. A tag assigns by position, or, with a packed fourth element, not at all. */
  lemma MarkersGoUnseen(r: Reply, t: Tag)
    requires Refers(t, E) && |t| >= 4
    ensures ReplyTag(r, t) == if PackedStr(t[3]) then r.(anyMarker := true) else ReplyTag(r, t[..3])
    ensures forall m :: m in [ROOT, REPLY, MENTION] ==> !PackedStr(Str(m))
  {
    assert |ROOT| == 4 && |REPLY| == 5 && |MENTION| == 7;
  }

  function ReplyFrom(r: Reply, ts: seq<Tag>): Reply
    decreases |ts|
  {
    if ts == [] || (r.root.Some? && r.reply.Some? && r.mention.Some?) then r
    else ReplyFrom(if Refers(ts[0], E) then ReplyTag(r, ts[0]) else r, ts[1..])
  }

  // ---- a whole note by its markers, and by position ----

  /** One `e` tag as NIP-10 reads it: a marker of any length counts. */
  function MarkedTag(r: Reply, t: Tag): Reply
    requires Refers(t, E)
  {
    var id := Some(t[1].id);
    if |t| >= 4 && t[3].Str? then
      var m := r.(anyMarker := true);
      if t[3].chars == ROOT then m.(root := id)
      else if t[3].chars == REPLY then m.(reply := id)
      else if t[3].chars == MENTION then m.(mention := id)
      else m
    else ReplyTag(r, t)
  }

  function MarkedFrom(r: Reply, ts: seq<Tag>): Reply
    decreases |ts|
  {
    if ts == [] || (r.root.Some? && r.reply.Some? && r.mention.Some?) then r
    else MarkedFrom(if Refers(ts[0], E) then MarkedTag(r, ts[0]) else r, ts[1..])
  }

  /** A fourth element that is a string, but too long to be packed. */
  predicate LongMarker(t: Tag)
  {
    Refers(t, E) && |t| >= 4 && t[3].Str? && !PackedStr(t[3])
  }

  /** A note without long markers is read as NIP-10 does. */
  lemma {:induction false} UnmarkedIsRead(r: Reply, ts: seq<Tag>)
    requires forall i :: 0 <= i < |ts| ==> !LongMarker(ts[i])
    ensures ReplyFrom(r, ts) == MarkedFrom(r, ts)
    decreases |ts|
  {
    if ts != [] && !(r.root.Some? && r.reply.Some? && r.mention.Some?) {
      assert !LongMarker(ts[0]);
      UnmarkedIsRead(if Refers(ts[0], E) then ReplyTag(r, ts[0]) else r, ts[1..]);
    }
  }

  /** What a tag refers to under a name of one or two letters that starts with `c`. */
  function Reference(t: Tag, c: nat): Option<Id>
  {
    if |t| >= 2 && t[0].Str? && 1 <= |t[0].chars| <= 2 && t[0].chars[0] == c && t[1].PackedId? then Some(t[1].id) else None
  }

  /** The ids that tags refer to, in order. */
  function References(ts: seq<Tag>, c: nat): seq<Id>
  {
    if ts == [] then []
    else (if Reference(ts[0], c).Some? then [Reference(ts[0], c).value] else []) + References(ts[1..], c)
  }

  lemma RefersIff(t: Tag, c: nat)
    requires c != 0
    ensures Refers(t, c) <==> Reference(t, c).Some?
    ensures Refers(t, c) ==> Reference(t, c) == Some(t[1].id)
  {
  }

  function Nth(ids: seq<Id>, n: nat): Option<Id>
  {
    if n < |ids| then Some(ids[n]) else None
  }

  /** Where no fourth element is packed, the first reference is the root and the second
      the reply, whatever their markers say. */
  lemma {:induction false} ReadByPosition(r: Reply, ts: seq<Tag>)
    requires forall i :: 0 <= i < |ts| && Refers(ts[i], E) && |ts[i]| >= 4 ==> !PackedStr(ts[i][3])
    requires r.mention.None? && !r.anyMarker && (r.first <==> r.root.None?) && (r.first ==> r.reply.None?)
    ensures var q, ids := ReplyFrom(r, ts), References(ts, E);
      && q.root == (if r.root.Some? then r.root else Nth(ids, 0))
      && q.reply == (if r.reply.Some? then r.reply else Nth(ids, if r.root.Some? then 0 else 1))
    decreases |ts|
  {
    if ts != [] {
      ReadByPosition(if Refers(ts[0], E) then ReplyTag(r, ts[0]) else r, ts[1..]);
      if Refers(ts[0], E) {
        assert |ts[0]| >= 4 ==> !PackedStr(ts[0][3]);
        assert References(ts, E) == [ts[0][1].id] + References(ts[1..], E);
      }
    }
  }

  /** So such a note is read as NIP-10 does if and only if its markers name the first
      reference as the root and the second as what it replies to. */
  lemma MarkersAgreeIff(ts: seq<Tag>)
    requires forall i :: 0 <= i < |ts| && Refers(ts[i], E) && |ts[i]| >= 4 ==> !PackedStr(ts[i][3])
    ensures var q, m := ReplyFrom(NO_REPLY, ts), MarkedFrom(NO_REPLY, ts);
      q.root == m.root && q.reply == m.reply
      <==> m.root == Nth(References(ts, E), 0) && m.reply == Nth(References(ts, E), 1)
  {
    ReadByPosition(NO_REPLY, ts);
  }

  /** A lone reference marked as the reply is taken for the root. */
  lemma LoneReplyIsTakenForRoot(t: Tag)
    requires Refers(t, E) && |t| >= 4 && t[3] == Str(REPLY)
    ensures ReplyFrom(NO_REPLY, [t]).root == Some(t[1].id) && ReplyFrom(NO_REPLY, [t]).reply == None
    ensures MarkedFrom(NO_REPLY, [t]).root == None && MarkedFrom(NO_REPLY, [t]).reply == Some(t[1].id)
  {
    assert |REPLY| == 5 && |ROOT| == 4;
    assert [t][1..] == [];
  }

  /** `ndb_parse_reply` */
  method ParseReply(ts: seq<Tag>) returns (r: Reply)
    ensures r == ReplyFrom(NO_REPLY, ts)
  {
    r := NO_REPLY;
    var i := 0;
    assert ts[0..] == ts;
    while i < |ts|
      invariant 0 <= i <= |ts|
      invariant ReplyFrom(NO_REPLY, ts) == ReplyFrom(r, ts[i..])
    {
      if r.root.Some? && r.reply.Some? && r.mention.Some? {
        return;
      }
      assert ts[i..][0] == ts[i] && ts[i..][1..] == ts[i + 1..];
      if Refers(ts[i], E) {
        r := ReplyTag(r, ts[i]);
      }
      i := i + 1;
    }
  }

  function Root(n: Note): Option<Id>
  {
    ReplyFrom(NO_REPLY, n.body.tags).root
  }

  /** Whom a note replies to (`ndb_is_reply_to_root`). */
  function ReplyTarget(n: Note): Option<Id>
  {
    var r := ReplyFrom(NO_REPLY, n.body.tags);
    if r.root.Some? && r.reply.None? then r.root else r.reply
  }

  function One(id: Option<Id>, c: Change): seq<(Id, Change)>
  {
    if id.Some? then [(id.value, c)] else []
  }

  /** What `ndb_write_note` counts for a note it has just stored, but for zap receipts
      (kind 9735), whose counters have entries of their own. `react` turns a reaction's
      content into its packed form. */
  function Changes(react: seq<nat> -> nat, n: Note): seq<(Id, Change)>
  {
    var ts := n.body.tags;
    if n.body.kind == 1 || n.body.kind == 30023 then
      One(FirstId(ts, Q), AddQuote) + One(ReplyTarget(n), AddDirect) + One(Root(n), AddThread)
    else if n.body.kind == 7 then
      One(LastId(ts, E), AddReaction(react(n.body.content))) + One(LastId(ts, E), AddTotal)
    else if n.body.kind == 6 || n.body.kind == 16 then
      One(FirstId(ts, E), AddRepost)
    else []
  }

  // ---- rows under change ----

  lemma BumpedOrdered(row: M.Row, c: Change)
    requires M.Ordered(row)
    ensures M.Ordered(Bumped(row, c))
  {
    M.UpsertOrdered(row, Changed(row, c));
  }

  /** A change touches the entry under its own key and no other. */
  lemma BumpedUpdates(row: M.Row, c: Change, k: M.SortKey)
    requires M.Ordered(row)
    ensures M.Lookup(Bumped(row, c), k) == if k == KeyFor(c) then Some(Changed(row, c)) else M.Lookup(row, k)
  {
    M.UpsertUpdates(row, Changed(row, c), k);
  }

  // ---- the reaction total is the sum of the reaction counts ----

  function CountIn(e: M.Entry): nat
  {
    if e.Reaction? then e.count else 0
  }

  function SumReactions(row: M.Row): nat
  {
    if row == [] then 0 else CountIn(row[0]) + SumReactions(row[1..])
  }

  function TotalReactions(row: M.Row): nat
  {
    match M.Lookup(row, M.SortKey(M.COUNTS, 0))
    case Some(e) => if e.Counts? then e.total else 0
    case None => 0
  }

  /** The total agrees with the sum, as 32-bit numbers. */
  ghost predicate Totalled(row: M.Row)
  {
    TotalReactions(row) % U32 == SumReactions(row) % U32
  }

  lemma {:induction false} SumOfUpsert(row: M.Row, e: M.Entry)
    requires M.Ordered(row) && M.CountsKey(e.Key())
    ensures var was := M.Lookup(row, e.Key());
      SumReactions(M.Upsert(row, e)) + (if was.Some? then CountIn(was.value) else 0) == SumReactions(row) + CountIn(e)
    decreases |row|
  {
    if row == [] {
    } else if M.Before(e.Key(), row[0].Key()) {
      M.NotFound(row, e.Key());
      assert ([e] + row)[1..] == row;
    } else if row[0].Key() == e.Key() {
      assert ([e] + row[1..])[1..] == row[1..];
    } else {
      SumOfUpsert(row[1..], e);
      M.LookupCons(row[0], row[1..], e.Key());
      assert row == [row[0]] + row[1..];
      assert ([row[0]] + M.Upsert(row[1..], e))[1..] == M.Upsert(row[1..], e);
    }
  }

  /** How one change moves total and sum. */
  lemma BumpedSums(row: M.Row, c: Change)
    requires M.Ordered(row)
    ensures TotalReactions(Bumped(row, c)) % U32 == (TotalReactions(row) + if c.AddTotal? then 1 else 0) % U32
    ensures SumReactions(Bumped(row, c)) % U32 == (SumReactions(row) + if c.AddReaction? then 1 else 0) % U32
  {
    hide M.Ordered, M.Upsert, M.Lookup;
    BumpedUpdates(row, c, M.SortKey(M.COUNTS, 0));
    SumOfUpsert(row, Changed(row, c));
    LookupKey(row, KeyFor(c));
    LookupKey(row, M.SortKey(M.COUNTS, 0));
  }

  ghost predicate Good(row: M.Row)
  {
    M.Ordered(row) && Totalled(row)
  }

  ghost predicate AllGood(ms: Metas)
  {
    forall id :: id in ms ==> Good(ms[id])
  }

  lemma BumpKeepsGood(ms: Metas, id: Id, c: Change)
    requires AllGood(ms) && !c.AddTotal? && !c.AddReaction?
    ensures AllGood(Bump(ms, id, c))
  {
    hide M.Ordered;
    EmptyIsGood();
    BumpedOrdered(RowAt(ms, id), c);
    BumpedSums(RowAt(ms, id), c);
  }

  lemma EmptyIsGood()
    ensures Good([])
  {
  }

  /** A reaction moves the total and the sum together. */
  lemma ReactionKeepsGood(ms: Metas, id: Id, reaction: nat)
    requires AllGood(ms)
    ensures AllGood(Bump(Bump(ms, id, AddReaction(reaction)), id, AddTotal))
  {
    EmptyIsGood();
    hide Good, Bumped;
    ReactedIsGood(RowAt(ms, id), reaction);
    var ms1 := Bump(ms, id, AddReaction(reaction));
    assert RowAt(ms1, id) == Bumped(RowAt(ms, id), AddReaction(reaction));
  }

  lemma ReactedIsGood(row: M.Row, reaction: nat)
    requires Good(row)
    ensures Good(Bumped(Bumped(row, AddReaction(reaction)), AddTotal))
  {
    hide M.Ordered, SumReactions, TotalReactions, Bumped;
    var row1 := Bumped(row, AddReaction(reaction));
    BumpedOrdered(row, AddReaction(reaction));
    BumpedSums(row, AddReaction(reaction));
    BumpedOrdered(row1, AddTotal);
    BumpedSums(row1, AddTotal);
  }

  lemma BumpAllSplits(ms: Metas, a: seq<(Id, Change)>, b: seq<(Id, Change)>)
    ensures BumpAll(ms, a + b) == BumpAll(BumpAll(ms, a), b)
    decreases |a|
  {
    if a == [] {
      assert a + b == b;
    } else {
      assert (a + b)[1..] == a[1..] + b;
      BumpAllSplits(Bump(ms, a[0].0, a[0].1), a[1..], b);
    }
  }

  lemma BumpOne(ms: Metas, id: Option<Id>, c: Change)
    ensures BumpAll(ms, One(id, c)) == if id.Some? then Bump(ms, id.value, c) else ms
  {
    if id.Some? { assert One(id, c)[1..] == []; }
  }

  lemma NoteKeepsGood(react: seq<nat> -> nat, ms: Metas, n: Note)
    requires AllGood(ms)
    ensures AllGood(BumpAll(ms, Changes(react, n)))
  {
    hide AllGood, Bump;
    var ts := n.body.tags;
    if n.body.kind == 1 || n.body.kind == 30023 {
      var a, b, c := One(FirstId(ts, Q), AddQuote), One(ReplyTarget(n), AddDirect), One(Root(n), AddThread);
      BumpAllSplits(ms, a + b, c);
      BumpAllSplits(ms, a, b);
      OneKeepsGood(ms, FirstId(ts, Q), AddQuote);
      OneKeepsGood(BumpAll(ms, a), ReplyTarget(n), AddDirect);
      OneKeepsGood(BumpAll(BumpAll(ms, a), b), Root(n), AddThread);
    } else if n.body.kind == 7 {
      var id := LastId(ts, E);
      var a, b := One(id, AddReaction(react(n.body.content))), One(id, AddTotal);
      BumpAllSplits(ms, a, b);
      BumpOne(ms, id, AddReaction(react(n.body.content)));
      BumpOne(BumpAll(ms, a), id, AddTotal);
      if id.Some? { ReactionKeepsGood(ms, id.value, react(n.body.content)); }
    } else if n.body.kind == 6 || n.body.kind == 16 {
      OneKeepsGood(ms, FirstId(ts, E), AddRepost);
    }
  }

  lemma OneKeepsGood(ms: Metas, id: Option<Id>, c: Change)
    requires AllGood(ms) && !c.AddTotal? && !c.AddReaction?
    ensures AllGood(BumpAll(ms, One(id, c)))
  {
    BumpOne(ms, id, c);
    if id.Some? { BumpKeepsGood(ms, id.value, c); }
  }

  /** The metadata table after counting `notes` into `ms`. */
  function CountNotes(react: seq<nat> -> nat, ms: Metas, notes: seq<Note>): Metas
    decreases |notes|
  {
    if notes == [] then ms else CountNotes(react, BumpAll(ms, Changes(react, notes[0])), notes[1..])
  }

  lemma {:induction false} NotesKeepGood(react: seq<nat> -> nat, ms: Metas, notes: seq<Note>)
    requires AllGood(ms)
    ensures AllGood(CountNotes(react, ms, notes))
    decreases |notes|
  {
    hide AllGood, Changes;
    if notes != [] {
      NoteKeepsGood(react, ms, notes[0]);
      NotesKeepGood(react, BumpAll(ms, Changes(react, notes[0])), notes[1..]);
    }
  }

  /** Every row that any sequence of notes leads to, from none, is sorted by type and
      reaction with one entry per key, and its total is the sum of its reaction counts. */
  lemma EveryRowIsGood(react: seq<nat> -> nat, notes: seq<Note>)
    ensures AllGood(CountNotes(react, map[], notes))
  {
    hide CountNotes;
    NotesKeepGood(react, map[], notes);
  }

  // ---- which counters those are, by the note's references ----

  /** The tags up to the first reference with a packed fourth element: it sets a marker
      that is none, and from there on nothing is assigned. */
  function Heeded(ts: seq<Tag>): seq<Tag>
  {
    if ts == [] then []
    else if Reference(ts[0], 'e' as nat).Some? && |ts[0]| >= 4 && ts[0][3].Str? && |ts[0][3].chars| <= 2 then []
    else [ts[0]] + Heeded(ts[1..])
  }

  lemma {:induction false} MarkedAssignsNothing(r: Reply, ts: seq<Tag>)
    requires r.anyMarker
    ensures ReplyFrom(r, ts).root == r.root && ReplyFrom(r, ts).reply == r.reply
    decreases |ts|
  {
    if ts != [] {
      if Refers(ts[0], E) && |ts[0]| >= 4 { MarkersGoUnseen(r, ts[0]); }
      MarkedAssignsNothing(if Refers(ts[0], E) then ReplyTag(r, ts[0]) else r, ts[1..]);
    }
  }

  lemma {:induction false} HeededAssign(r: Reply, ts: seq<Tag>)
    requires r.mention.None? && !r.anyMarker && (r.first <==> r.root.None?) && (r.first ==> r.reply.None?)
    ensures var q, ids := ReplyFrom(r, ts), References(Heeded(ts), 'e' as nat);
      && q.root == (if r.root.Some? then r.root else Nth(ids, 0))
      && q.reply == (if r.reply.Some? then r.reply else Nth(ids, if r.root.Some? then 0 else 1))
    decreases |ts|
  {
    if ts != [] {
      RefersIff(ts[0], E);
      var r' := if Refers(ts[0], E) then ReplyTag(r, ts[0]) else r;
      if Refers(ts[0], E) && |ts[0]| >= 4 { MarkersGoUnseen(r, ts[0]); }
      if Heeded(ts) == [] {
        MarkedAssignsNothing(r', ts[1..]);
      } else {
        HeededAssign(r', ts[1..]);
        assert Heeded(ts)[1..] == Heeded(ts[1..]);
      }
    }
  }

  /** In every note the thread is that of the first heeded reference, and the reply is to
      the second one, or to the only one. */
  lemma RepliesGoByReference(n: Note)
    ensures var ids := References(Heeded(n.body.tags), 'e' as nat);
      Root(n) == Nth(ids, 0) && ReplyTarget(n) == if |ids| == 1 then Nth(ids, 0) else Nth(ids, 1)
  {
    HeededAssign(NO_REPLY, n.body.tags);
  }

  lemma {:induction false} FirstIdIsFirst(ts: seq<Tag>, c: nat)
    requires c != 0
    ensures FirstId(ts, c) == Nth(References(ts, c), 0)
    decreases |ts|
  {
    if ts != [] {
      RefersIff(ts[0], c);
      FirstIdIsFirst(ts[1..], c);
    }
  }

  lemma {:induction false} ReferencesSplit(a: seq<Tag>, b: seq<Tag>, c: nat)
    ensures References(a + b, c) == References(a, c) + References(b, c)
    decreases |a|
  {
    if a == [] {
      assert a + b == b;
    } else {
      assert (a + b)[1..] == a[1..] + b;
      ReferencesSplit(a[1..], b, c);
    }
  }

  function Last(ids: seq<Id>): Option<Id>
  {
    if ids == [] then None else Some(ids[|ids| - 1])
  }

  lemma {:induction false} LastIdIsLast(ts: seq<Tag>, c: nat)
    requires c != 0
    ensures LastId(ts, c) == Last(References(ts, c))
    decreases |ts|
  {
    if ts != [] {
      var rest, t := ts[..|ts| - 1], ts[|ts| - 1];
      assert ts == rest + [t];
      ReferencesSplit(rest, [t], c);
      assert [t][1..] == [];
      RefersIff(t, c);
      LastIdIsLast(rest, c);
    }
  }

  /** Note `n` counts for `id` in counter `c`: a text or long-form note for its first
      quote, for the note it replies to and for the thread; a reaction for the last note
      it refers to, by what it says and in total; a repost for the first. */
  predicate Gains(react: seq<nat> -> nat, n: Note, id: Id, c: Change)
  {
    var kind, ids, heeded := n.body.kind, References(n.body.tags, 'e' as nat), References(Heeded(n.body.tags), 'e' as nat);
    match c
    case AddQuote => (kind == 1 || kind == 30023) && Nth(References(n.body.tags, 'q' as nat), 0) == Some(id)
    case AddDirect => (kind == 1 || kind == 30023) && (if |heeded| == 1 then Nth(heeded, 0) else Nth(heeded, 1)) == Some(id)
    case AddThread => (kind == 1 || kind == 30023) && Nth(heeded, 0) == Some(id)
    case AddReaction(reaction) => kind == 7 && Last(ids) == Some(id) && react(n.body.content) == reaction
    case AddTotal => kind == 7 && Last(ids) == Some(id)
    case AddRepost => (kind == 6 || kind == 16) && Nth(ids, 0) == Some(id)
  }

  function Times(cs: seq<(Id, Change)>, id: Id, c: Change): nat
  {
    if cs == [] then 0 else (if cs[0] == (id, c) then 1 else 0) + Times(cs[1..], id, c)
  }

  lemma {:induction false} TimesSplits(a: seq<(Id, Change)>, b: seq<(Id, Change)>, id: Id, c: Change)
    ensures Times(a + b, id, c) == Times(a, id, c) + Times(b, id, c)
    decreases |a|
  {
    if a == [] {
      assert a + b == b;
    } else {
      assert (a + b)[1..] == a[1..] + b;
      TimesSplits(a[1..], b, id, c);
    }
  }

  lemma TimesOne(to: Option<Id>, d: Change, id: Id, c: Change)
    ensures Times(One(to, d), id, c) == if to == Some(id) && d == c then 1 else 0
    ensures Times([], id, c) == 0
  {
    if to.Some? { assert One(to, d)[1..] == []; }
  }

  /** A note moves each counter it counts in once, and no other. */
  lemma ChangesAreGains(react: seq<nat> -> nat, n: Note, id: Id, c: Change)
    ensures Times(Changes(react, n), id, c) == if Gains(react, n, id, c) then 1 else 0
  {
    hide FirstId, LastId, One, References, Times, Root, ReplyTarget, Heeded;
    var ts := n.body.tags;
    RepliesGoByReference(n);
    FirstIdIsFirst(ts, E);
    FirstIdIsFirst(ts, Q);
    LastIdIsLast(ts, E);
    TimesOne(None, AddTotal, id, c);
    if n.body.kind == 1 || n.body.kind == 30023 {
      var x, y, z := One(FirstId(ts, Q), AddQuote), One(ReplyTarget(n), AddDirect), One(Root(n), AddThread);
      TimesSplits(x + y, z, id, c);
      TimesSplits(x, y, id, c);
      TimesOne(FirstId(ts, Q), AddQuote, id, c);
      TimesOne(ReplyTarget(n), AddDirect, id, c);
      TimesOne(Root(n), AddThread, id, c);
    } else if n.body.kind == 7 {
      var liked, reaction := LastId(ts, E), react(n.body.content);
      TimesSplits(One(liked, AddReaction(reaction)), One(liked, AddTotal), id, c);
      TimesOne(liked, AddReaction(reaction), id, c);
      TimesOne(liked, AddTotal, id, c);
    } else {
      TimesOne(FirstId(ts, E), AddRepost, id, c);
    }
  }

  // ---- the counters as a row has them ----

  /** The counts of a row: without such an entry, none. */
  function CountsOf(row: M.Row): (e: M.Entry)
    ensures e.Counts?
  {
    if row == [] then M.Counts(0, 0, 0, 0, 0) else if row[0].Counts? then row[0] else CountsOf(row[1..])
  }

  function ReactionsOf(row: M.Row, reaction: nat): nat
  {
    if row == [] then 0
    else if row[0].Reaction? && row[0].reaction == reaction then row[0].count
    else ReactionsOf(row[1..], reaction)
  }

  /** The counter that change `c` is about. */
  function Value(row: M.Row, c: Change): nat
  {
    match c
    case AddReaction(reaction) => ReactionsOf(row, reaction)
    case AddTotal => CountsOf(row).total
    case AddRepost => CountsOf(row).reposts
    case AddDirect => CountsOf(row).direct
    case AddQuote => CountsOf(row).quotes
    case AddThread => CountsOf(row).thread
  }

  /** Reposts, quotes and direct replies have 16 bits, the others 32. */
  function Limit(c: Change): (w: nat)
    ensures w > 1
  {
    match c
    case AddReaction(_) => 0x1_0000_0000
    case AddTotal => 0x1_0000_0000
    case AddThread => 0x1_0000_0000
    case AddRepost => 0x1_0000
    case AddDirect => 0x1_0000
    case AddQuote => 0x1_0000
  }

  lemma {:induction false} ValueIsLookup(row: M.Row, c: Change)
    ensures match M.Lookup(row, KeyFor(c))
      case None => Value(row, c) == 0
      case Some(e) => Value(row, c) == Value([e], c)
    decreases |row|
  {
    if row != [] && row[0].Key() != KeyFor(c) {
      ValueIsLookup(row[1..], c);
      assert Value(row, c) == Value(row[1..], c);
    }
  }

  /** Changing an entry adds one to its own counter, and leaves the others in it alone. */
  lemma ChangedValue(row: M.Row, c: Change, d: Change)
    requires KeyFor(d) == KeyFor(c) && Value(row, d) < Limit(d)
    ensures Value([Changed(row, c)], d) == (Value(row, d) + if c == d then 1 else 0) % Limit(d)
  {
    ValueIsLookup(row, d);
    LookupKey(row, KeyFor(c));
  }

  /** A change adds one to its own counter of the row, wrapping at its width, and moves no
      other counter. */
  lemma BumpGains(row: M.Row, c: Change, d: Change)
    requires M.Ordered(row) && Value(row, d) < Limit(d)
    ensures Value(Bumped(row, c), d) == (Value(row, d) + if c == d then 1 else 0) % Limit(d)
  {
    hide M.Ordered, Bumped, Changed, Value, Limit, M.Lookup;
    BumpedUpdates(row, c, KeyFor(d));
    ValueIsLookup(Bumped(row, c), d);
    if KeyFor(c) == KeyFor(d) {
      ChangedValue(row, c, d);
    } else {
      ValueIsLookup(row, d);
      Small(Value(row, d), Limit(d));
    }
  }

  lemma Small(x: nat, w: nat)
    requires x < w
    ensures x % w == x
  {
  }

  /** A counter of an id, as the table has it. */
  function CounterAt(ms: Metas, id: Id, c: Change): nat
  {
    Value(RowAt(ms, id), c)
  }

  ghost predicate Sound(ms: Metas, id: Id, c: Change)
  {
    M.Ordered(RowAt(ms, id)) && CounterAt(ms, id, c) < Limit(c)
  }

  /** The rows are sorted, and no counter is beyond its width. */
  ghost predicate InWidth(ms: Metas)
  {
    forall id, c :: Sound(ms, id, c)
  }

  lemma BumpAdds(ms: Metas, to: Id, d: Change, id: Id, c: Change)
    requires InWidth(ms)
    ensures M.Ordered(RowAt(Bump(ms, to, d), id))
    ensures CounterAt(Bump(ms, to, d), id, c) == (CounterAt(ms, id, c) + if (to, d) == (id, c) then 1 else 0) % Limit(c)
  {
    hide Value, Bumped, M.Ordered, Limit;
    assert Sound(ms, id, c) && Sound(ms, to, c);
    BumpedOrdered(RowAt(ms, to), d);
    if to == id {
      BumpGains(RowAt(ms, to), d, c);
    } else {
      Small(CounterAt(ms, id, c), Limit(c));
    }
  }

  lemma BumpInWidth(ms: Metas, to: Id, d: Change)
    requires InWidth(ms)
    ensures InWidth(Bump(ms, to, d))
  {
    hide Bump, CounterAt, Limit, M.Ordered;
    forall id, c ensures Sound(Bump(ms, to, d), id, c) {
      BumpAdds(ms, to, d, id, c);
      Below(CounterAt(ms, id, c) + if (to, d) == (id, c) then 1 else 0, c);
    }
  }

  lemma Below(x: nat, c: Change)
    ensures x % Limit(c) < Limit(c)
  {
  }

  lemma AddsUp(x: nat, a: nat, b: nat, c: Change)
    ensures ((x + a) % Limit(c) + b) % Limit(c) == (x + (a + b)) % Limit(c)
  {
  }

  lemma {:induction false} BumpAllAdds(ms: Metas, cs: seq<(Id, Change)>, id: Id, c: Change)
    requires InWidth(ms)
    ensures InWidth(BumpAll(ms, cs))
    ensures CounterAt(BumpAll(ms, cs), id, c) == (CounterAt(ms, id, c) + Times(cs, id, c)) % Limit(c)
    decreases |cs|
  {
    hide Value, Bump, Limit, M.Ordered;
    assert Sound(ms, id, c);
    hide InWidth, CounterAt;
    if cs == [] {
      Small(CounterAt(ms, id, c), Limit(c));
    } else {
      BumpAdds(ms, cs[0].0, cs[0].1, id, c);
      BumpInWidth(ms, cs[0].0, cs[0].1);
      BumpAllAdds(Bump(ms, cs[0].0, cs[0].1), cs[1..], id, c);
      AddsUp(CounterAt(ms, id, c), if cs[0] == (id, c) then 1 else 0, Times(cs[1..], id, c), c);
    }
  }

  /** Writing a note adds one to the counters it counts in, wrapping at their widths, and
      leaves every other counter of every id as it was. */
  lemma NoteGains(react: seq<nat> -> nat, ms: Metas, n: Note, id: Id, c: Change)
    requires InWidth(ms)
    ensures var ms' := BumpAll(ms, Changes(react, n));
      && InWidth(ms')
      && CounterAt(ms', id, c) == (CounterAt(ms, id, c) + if Gains(react, n, id, c) then 1 else 0) % Limit(c)
  {
    hide InWidth, CounterAt, Gains, Changes, Times, BumpAll, Limit;
    BumpAllAdds(ms, Changes(react, n), id, c);
    ChangesAreGains(react, n, id, c);
  }

  function Gaining(react: seq<nat> -> nat, notes: seq<Note>, id: Id, c: Change): nat
  {
    if notes == [] then 0 else (if Gains(react, notes[0], id, c) then 1 else 0) + Gaining(react, notes[1..], id, c)
  }

  lemma {:induction false} NotesGain(react: seq<nat> -> nat, ms: Metas, notes: seq<Note>, id: Id, c: Change)
    requires InWidth(ms)
    ensures CounterAt(CountNotes(react, ms, notes), id, c) == (CounterAt(ms, id, c) + Gaining(react, notes, id, c)) % Limit(c)
    decreases |notes|
  {
    hide Gains, Changes, BumpAll, Limit;
    assert Sound(ms, id, c);
    if notes == [] {
      Small(CounterAt(ms, id, c), Limit(c));
    } else {
      hide InWidth, CounterAt;
      var ms' := BumpAll(ms, Changes(react, notes[0]));
      NoteGains(react, ms, notes[0], id, c);
      NotesGain(react, ms', notes[1..], id, c);
      AddsUp(CounterAt(ms, id, c), if Gains(react, notes[0], id, c) then 1 else 0, Gaining(react, notes[1..], id, c), c);
    }
  }

  /** So after any sequence of notes each of the six counters of an id, quotes and reposts
      included, is the number of notes that count for it there, up to its width. */
  lemma EveryCounterCounts(react: seq<nat> -> nat, notes: seq<Note>, id: Id, c: Change)
    ensures CounterAt(CountNotes(react, map[], notes), id, c) == Gaining(react, notes, id, c) % Limit(c)
  {
    hide Gains, CountNotes;
    NotesGain(react, map[], notes, id, c);
  }
}

/** The metadata table as the writer updates it, through a scratch buffer. */
module MetaTables {
  import opened Notes
  import opened Tables
  import opened Counters
  import M = MetadataRows

  lemma {:induction false} UpsertGrowsByOne(row: M.Row, e: M.Entry)
    ensures |M.Upsert(row, e)| <= |row| + 1
    decreases |row|
  {
    if row != [] && !M.Before(e.Key(), row[0].Key()) && row[0].Key() != e.Key() {
      UpsertGrowsByOne(row[1..], e);
    }
  }

  ghost predicate HasRoom(ms: Metas, slots: nat, spare: nat)
  {
    forall id :: |RowAt(ms, id)| + spare <= slots
  }

  lemma BumpUsesRoom(ms: Metas, id: Id, c: Change, slots: nat, spare: nat)
    requires HasRoom(ms, slots, spare + 1)
    ensures HasRoom(Bump(ms, id, c), slots, spare)
  {
    forall other ensures |RowAt(Bump(ms, id, c), other)| + spare <= slots {
      assert |RowAt(ms, other)| + spare + 1 <= slots;
      UpsertGrowsByOne(RowAt(ms, id), Changed(RowAt(ms, id), c));
    }
  }

  ghost predicate AllOrdered(ms: Metas)
  {
    forall id :: M.Ordered(RowAt(ms, id))
  }

  lemma BumpKeepsOrdered(ms: Metas, id: Id, c: Change)
    requires AllOrdered(ms)
    ensures AllOrdered(Bump(ms, id, c))
  {
    forall other ensures M.Ordered(RowAt(Bump(ms, id, c), other)) {
      assert M.Ordered(RowAt(ms, other)) && M.Ordered(RowAt(ms, id));
      BumpedOrdered(RowAt(ms, id), c);
    }
  }

  class MetaTable {
    var metas: Metas
    const builder: M.Builder

    ghost predicate Valid()
      reads this, builder
    {
      builder.Valid() && builder.buf.Length > 0
    }

    constructor (scratch: array<M.Entry>)
      requires scratch.Length > 0
      ensures Valid() && metas == map[] && builder.buf == scratch && fresh(builder)
    {
      metas := map[];
      builder := new M.Builder(scratch);
    }

    /** The shape of `ndb_process_reaction` and of every `ndb_increment_*`: clone the
        row with an entry, set or increment it, put the row back. */
    method Increment(id: Id, c: Change) returns (ok: bool)
      requires Valid() && AllOrdered(metas)
      modifies this`metas, builder, builder.buf
      ensures Valid()
      ensures metas == if ok then Bump(old(metas), id, c) else old(metas)
      ensures |RowAt(old(metas), id)| < builder.buf.Length ==> ok
    {
      ghost var row := RowAt(metas, id);
      var meta := if id in metas then Some(metas[id]) else None;
      assert M.RowOf(meta) == row && M.Ordered(row);
      hide M.Ordered;
      var r, at := builder.CloneWithEntry(meta, KeyFor(c));
      if r.CloneFailed? {
        return false;
      }
      ghost var cloned := builder.Contents();
      ghost var was := builder.buf[at];
      ok := true;
      if r.NewEntry? {
        builder.buf[at] := First(c);
        EditedNew(row, c, cloned, at);
      } else {
        builder.buf[at] := Counters.Increment(c, builder.buf[at]);
        EditedOld(row, c, at);
      }
      assert builder.Contents() == cloned[at := builder.buf[at]];
      metas := metas[id := builder.Contents()];
    }

    /** The counting at the end of `ndb_write_note`. */
    method Process(react: seq<nat> -> nat, n: Note)
      requires Valid() && AllOrdered(metas) && HasRoom(metas, builder.buf.Length, 3)
      modifies this`metas, builder, builder.buf
      ensures Valid()
      ensures metas == BumpAll(old(metas), Changes(react, n))
    {
      var ts := n.body.tags;
      hide Bump, AllOrdered, HasRoom, FirstId, LastId, ReplyFrom, One;
      if n.body.kind == 1 || n.body.kind == 30023 {
        ghost var ms := metas;
        ghost var a, b, d := One(FirstId(ts, Q), AddQuote), One(ReplyTarget(n), AddDirect), One(Root(n), AddThread);
        BumpAllSplits(ms, a + b, d);
        BumpAllSplits(ms, a, b);
        IncrementSome(FirstId(ts, Q), AddQuote, 2);
        var r := ParseReply(ts);
        IncrementSome(if r.root.Some? && r.reply.None? then r.root else r.reply, AddDirect, 1);
        IncrementSome(r.root, AddThread, 0);
      } else if n.body.kind == 7 {
        var liked := LastId(ts, E);
        var reaction := react(n.body.content);
        BumpAllSplits(metas, One(liked, AddReaction(reaction)), One(liked, AddTotal));
        IncrementSome(liked, AddReaction(reaction), 2);
        IncrementSome(liked, AddTotal, 1);
      } else if n.body.kind == 6 || n.body.kind == 16 {
        IncrementSome(FirstId(ts, E), AddRepost, 2);
      }
    }

    method IncrementSome(id: Option<Id>, c: Change, ghost spare: nat)
      requires Valid() && AllOrdered(metas) && HasRoom(metas, builder.buf.Length, spare + 1)
      modifies this`metas, builder, builder.buf
      ensures Valid() && AllOrdered(metas) && HasRoom(metas, builder.buf.Length, spare)
      ensures metas == BumpAll(old(metas), One(id, c))
    {
      BumpOne(metas, id, c);
      RoomShrinks(metas, builder.buf.Length, spare);
      if id.Some? {
        BumpKeepsOrdered(metas, id.value, c);
        BumpUsesRoom(metas, id.value, c, builder.buf.Length, spare);
        assert |RowAt(metas, id.value)| < builder.buf.Length;
        var ok := Increment(id.value, c);
      }
    }
  }

  lemma RoomShrinks(ms: Metas, slots: nat, spare: nat)
    requires HasRoom(ms, slots, spare + 1)
    ensures HasRoom(ms, slots, spare)
  {
    forall id ensures |RowAt(ms, id)| + spare <= slots {
      assert |RowAt(ms, id)| + (spare + 1) <= slots;
    }
  }

  /** Setting a new blank entry is the change. */
  lemma EditedNew(row: M.Row, c: Change, cloned: M.Row, at: nat)
    requires M.Ordered(row) && M.Find(row, KeyFor(c)) == |row|
    requires cloned == M.Upsert(row, M.Blank(KeyFor(c))) && at < |cloned| && cloned[at].Key() == KeyFor(c)
    ensures cloned[at := First(c)] == Bumped(row, c)
  {
    M.UpsertOrdered(row, M.Blank(KeyFor(c)));
    M.UpsertInPlace(cloned, at, First(c));
    M.UpsertTwice(row, M.Blank(KeyFor(c)), First(c));
  }

  /** Incrementing the entry found is the change. */
  lemma EditedOld(row: M.Row, c: Change, at: nat)
    requires M.Ordered(row) && at < |row| && row[at].Key() == KeyFor(c)
    ensures row[at := Counters.Increment(c, row[at])] == Bumped(row, c)
  {
    M.FindAt(row, at);
    M.UpsertInPlace(row, at, Counters.Increment(c, row[at]));
  }
}
