/** Notes, and how LMDB orders 8-byte values in tables without MDB_INTEGERDUP. */
module Notes {

  type Id = b: seq<nat> | |b| == 32 witness seq(32, _ => 0)

  // A tag element is a NUL-terminated string or a packed 32-byte id.
  datatype TagElem = Str(chars: seq<nat>) | PackedId(id: Id)
  {
    function Bytes(): seq<nat>
    {
      match this
      case Str(chars) => chars
      case PackedId(id) => id
    }

    /** The byte at `i` when the element is read as a C string. */
    function CharAt(i: nat): nat
    {
      if i < |Bytes()| then Bytes()[i] else 0
    }
  }

  type Tag = seq<TagElem>

  // The fields an id commits to.
  datatype Body = Body(pubkey: Id, createdAt: nat, kind: nat, tags: seq<Tag>, content: seq<nat>)

  // `wrapId` is the half of a rumor's signature field that names its giftwrap.
  datatype Note = Note(id: Id, body: Body, rumor: bool, unwrapped: bool, wrapId: Id)

  /** What `strlen` sees of a string. */
  function CString(s: seq<nat>): (t: seq<nat>)
    ensures |t| <= |s| && t == s[..|t|] && 0 !in t
  {
    if s == [] || s[0] == 0 then [] else [s[0]] + CString(s[1..])
  }

  const U32: nat := 0x1_0000_0000
  const U64: nat := 0x1_0000_0000_0000_0000

  function ToBytes(k: nat, n: nat): (b: seq<nat>)
    ensures |b| == n
    ensures forall i :: 0 <= i < n ==> b[i] < 256
  {
    if n == 0 then [] else [k % 256] + ToBytes(k / 256, n - 1)
  }

  function FromBytes(b: seq<nat>): nat
  {
    if b == [] then 0 else b[0] + 256 * FromBytes(b[1..])
  }

  function Reversed(b: seq<nat>): (r: seq<nat>)
    ensures |r| == |b| && forall i :: 0 <= i < |b| ==> r[i] == b[|b| - 1 - i]
  {
    seq(|b|, i requires 0 <= i < |b| => b[|b| - 1 - i])
  }

  function Pow256(n: nat): nat
  {
    if n == 0 then 1 else 256 * Pow256(n - 1)
  }

  lemma {:induction false} FromToBytes(k: nat, n: nat)
    requires k < Pow256(n)
    ensures FromBytes(ToBytes(k, n)) == k
  {
    if n > 0 {
      FromToBytes(k / 256, n - 1);
      var b := ToBytes(k, n);
      assert b[1..] == ToBytes(k / 256, n - 1);
    }
  }

  lemma {:induction false} ToFromBytes(b: seq<nat>)
    requires forall i :: 0 <= i < |b| ==> b[i] < 256
    ensures FromBytes(b) < Pow256(|b|)
    ensures ToBytes(FromBytes(b), |b|) == b
  {
    if b != [] {
      ToFromBytes(b[1..]);
      assert (b[0] + 256 * FromBytes(b[1..])) / 256 == FromBytes(b[1..]);
      assert b == [b[0]] + b[1..];
    }
  }

  /** The rank of a stored 8-byte little-endian value under memcmp: duplicates in
      the id and tag tables are ordered by it, not by the number itself. */
  function DupRank(k: nat): nat
  {
    FromBytes(Reversed(ToBytes(k, 8)))
  }

  lemma DupRankInvolution(k: nat)
    requires k < U64
    ensures DupRank(DupRank(k)) == k
  {
    assert Pow256(8) == U64;
    var b := ToBytes(k, 8);
    ToFromBytes(Reversed(b));
    assert Reversed(Reversed(b)) == b;
    FromToBytes(k, 8);
  }
}

/** The note table, its indexes, and `ndb_write_note`. */
module Database {
  import opened LexOrder
  import opened Tables
  import opened Notes

  datatype Row = Row(key: nat, note: Note)

  datatype Which = ById | ByKind | ByPubkey | ByPubkeyKind | ByTag

  datatype Db = Db(rows: seq<Row>, ids: seq<Entry>, kinds: seq<Entry>, pubkeys: seq<Entry>,
                   pubkeyKinds: seq<Entry>, tags: seq<Entry>)
  {
    function Table(w: Which): seq<Entry>
    {
      match w
      case ById => ids
      case ByKind => kinds
      case ByPubkey => pubkeys
      case ByPubkeyKind => pubkeyKinds
      case ByTag => tags
    }

    /** `ndb_get_note_by_key` */
    function NoteByKey(k: nat): Option<Note>
    {
      Lookup(rows, k)
    }

    /** `ndb_get_last_key` */
    function LastKey(): nat
    {
      if rows == [] then 0 else rows[|rows| - 1].key
    }
  }

  const EMPTY := Db([], [], [], [], [], [])

  function Lookup(rows: seq<Row>, k: nat): Option<Note>
  {
    if rows == [] then None else if rows[0].key == k then Some(rows[0].note) else Lookup(rows[1..], k)
  }

  /** `mdb_put` into the note table, which is ordered by integer key. */
  function PutRow(rows: seq<Row>, k: nat, n: Note): seq<Row>
  {
    if rows == [] then [Row(k, n)]
    else if rows[0].key == k then [Row(k, n)] + rows[1..]
    else if k < rows[0].key then [Row(k, n)] + rows
    else [rows[0]] + PutRow(rows[1..], k, n)
  }

  // ---- the order of duplicates ----

  lemma {:induction false} FromBytesSnoc(s: seq<nat>, b: nat)
    ensures FromBytes(s + [b]) == FromBytes(s) + b * Pow256(|s|)
  {
    if s == [] {
      assert [] + [b] == [b] && [b][1..] == [];
    } else {
      FromBytesSnoc(s[1..], b);
      assert (s + [b])[1..] == s[1..] + [b];
      ProductOf256(b, Pow256(|s| - 1));
    }
  }

  lemma ProductOf256(b: nat, p: nat)
    ensures b * (256 * p) == 256 * (b * p)
  {
  }

  lemma HigherByte(x: nat, y: nat, p: nat, a: nat, b: nat)
    requires a < p && b < p
    ensures x < y ==> x * p + a < y * p + b
    ensures x == y ==> (x * p + a < y * p + b <==> a < b)
  {
    if x < y {
      var d: nat := y - x - 1;
      assert y * p == x * p + p + d * p;
    }
  }

  /** Byte strings of one length are ordered as the numbers they are, highest byte first. */
  lemma {:induction false} LexIsBigEndian(a: seq<nat>, b: seq<nat>)
    requires |a| == |b| && forall i :: 0 <= i < |a| ==> a[i] < 256 && b[i] < 256
    ensures LexLess(a, b) <==> FromBytes(Reversed(a)) < FromBytes(Reversed(b))
    decreases |a|
  {
    if a != [] {
      LexIsBigEndian(a[1..], b[1..]);
      assert Reversed(a) == Reversed(a[1..]) + [a[0]] && Reversed(b) == Reversed(b[1..]) + [b[0]];
      FromBytesSnoc(Reversed(a[1..]), a[0]);
      FromBytesSnoc(Reversed(b[1..]), b[0]);
      ToFromBytes(Reversed(a[1..]));
      ToFromBytes(Reversed(b[1..]));
      HigherByte(a[0], b[0], Pow256(|a| - 1), FromBytes(Reversed(a[1..])), FromBytes(Reversed(b[1..])));
      HigherByte(b[0], a[0], Pow256(|a| - 1), FromBytes(Reversed(b[1..])), FromBytes(Reversed(a[1..])));
    }
  }

  /** Where duplicates are compared byte by byte, two note keys are in the order of their
      ranks, which is that of their little-endian bytes. */
  lemma DupRankIsMemcmp(a: nat, b: nat)
    ensures DupRank(a) < DupRank(b) <==> LexLess(ToBytes(a, 8), ToBytes(b, 8))
  {
    LexIsBigEndian(ToBytes(a, 8), ToBytes(b, 8));
  }

  // ---- index entries of one note ----

  /** `ndb_write_note_tag_index` for one tag: the value's length is cast to a
      byte, and a key over 255 bytes is skipped. */
  function TagEntry(t: Tag, createdAt: nat, key: nat): seq<Entry>
  {
    if |t| < 2 then []
    else if t[0].CharAt(0) == 0 || t[0].CharAt(1) != 0 then []
    else
      var val := t[1].Bytes();
      var len := |val| % 256;
      if 1 + len + 8 > 255 then []
      else [Entry([t[0].CharAt(0)] + val[..len], createdAt % U32, DupRank(key))]
  }

  function TagEntries(ts: seq<Tag>, createdAt: nat, key: nat): seq<Entry>
  {
    if ts == [] then [] else TagEntry(ts[0], createdAt, key) + TagEntries(ts[1..], createdAt, key)
  }

  /** What the index writers put for note `n` stored under `key`. Two of them
      read created_at through the 32-bit accessor. */
  function Entries(w: Which, n: Note, key: nat): seq<Entry>
  {
    var b := n.body;
    match w
    case ById => [Entry(n.id, b.createdAt, DupRank(key))]
    case ByKind => [Entry([b.kind], b.createdAt, key)]
    case ByPubkey => [Entry(b.pubkey, b.createdAt % U32, key)]
    case ByPubkeyKind => [Entry(b.pubkey + [b.kind], b.createdAt % U32, key)]
    case ByTag => TagEntries(b.tags, b.createdAt, key)
  }

  function PutAll(t: seq<Entry>, es: seq<Entry>): seq<Entry>
    decreases |es|
  {
    if es == [] then t else PutAll(Put(t, es[0]), es[1..])
  }

  // ---- the exact-image invariant ----

  ghost predicate Indexed(rows: seq<Row>, w: Which, e: Entry)
  {
    exists i :: 0 <= i < |rows| && e in Entries(w, rows[i].note, rows[i].key)
  }

  ghost predicate ExactIndex(db: Db, w: Which)
  {
    Sorted(db.Table(w)) && forall e :: e in db.Table(w) <==> Indexed(db.rows, w, e)
  }

  ghost predicate KeysAreConsecutive(rows: seq<Row>)
  {
    forall i :: 0 <= i < |rows| ==> rows[i].key == i + 1
  }

  ghost predicate IdsAreUnique(rows: seq<Row>)
  {
    forall i, j :: 0 <= i < j < |rows| ==> rows[i].note.id != rows[j].note.id
  }

  ghost predicate Exact(db: Db)
  {
    && KeysAreConsecutive(db.rows)
    && IdsAreUnique(db.rows)
    && forall w :: ExactIndex(db, w)
  }

  /** The stored widths: 32-bit timestamps and kinds, 32-bit note keys. */
  ghost predicate Narrow(db: Db)
  {
    && |db.rows| < U32
    && forall i :: 0 <= i < |db.rows| ==> db.rows[i].note.body.createdAt < U32 && db.rows[i].note.body.kind < U32
  }

  // ---- facts about puts ----

  lemma {:induction false} PutAllInserts(t: seq<Entry>, es: seq<Entry>)
    requires Sorted(t)
    ensures Sorted(PutAll(t, es))
    ensures forall e :: e in PutAll(t, es) <==> e in t || e in es
    decreases |es|
  {
    if es != [] {
      PutInserts(t, es[0]);
      PutAllInserts(Put(t, es[0]), es[1..]);
      forall e ensures e in Put(t, es[0]) <==> e in t || e == es[0] {
        assert e in Put(t, es[0]) <==> e in Elems(Put(t, es[0]));
        assert e in t <==> e in Elems(t);
      }
    }
  }

  lemma {:induction false} LookupConsecutive(rows: seq<Row>, base: nat, k: nat)
    requires forall i :: 0 <= i < |rows| ==> rows[i].key == base + i + 1
    ensures Lookup(rows, k) == if base < k <= base + |rows| then Some(rows[k - base - 1].note) else None
    decreases |rows|
  {
    if rows != [] {
      LookupConsecutive(rows[1..], base + 1, k);
    }
  }

  lemma {:induction false} PutConsecutive(rows: seq<Row>, base: nat, k: nat, n: Note)
    requires forall i :: 0 <= i < |rows| ==> rows[i].key == base + i + 1
    requires base < k <= base + |rows| + 1
    ensures PutRow(rows, k, n) == if k == base + |rows| + 1 then rows + [Row(k, n)] else rows[k - base - 1 := Row(k, n)]
    decreases |rows|
  {
    if rows != [] && rows[0].key != k {
      PutConsecutive(rows[1..], base + 1, k, n);
      assert rows == [rows[0]] + rows[1..];
    }
  }

  lemma SameBodySameEntries(w: Which, m: Note, n: Note, key: nat)
    requires m.id == n.id && m.body == n.body
    ensures Entries(w, m, key) == Entries(w, n, key)
  {
  }

  // ---- looking a note up by id ----

  /** `ndb_get_notekey_by_id`: 0 when there is none. The key comes back through
      a 32-bit read. */
  function KeyById(db: Db, id: Id): nat
  {
    match CursorStart(db.ids, id, U64 - 1)
    case None => 0
    case Some(p) =>
      if db.ids[p].group == id then DupRank(db.ids[p].key) % U32 else 0
  }

  lemma IdIsIndexed(db: Db, i: nat) returns (j: nat)
    requires ExactIndex(db, ById) && i < |db.rows|
    ensures j < |db.ids|
    ensures db.ids[j] == Entry(db.rows[i].note.id, db.rows[i].note.body.createdAt, DupRank(db.rows[i].key))
  {
    hide DupRank, Sorted;
    var e := Entry(db.rows[i].note.id, db.rows[i].note.body.createdAt, DupRank(db.rows[i].key));
    assert e in Entries(ById, db.rows[i].note, db.rows[i].key);
    assert Indexed(db.rows, ById, e);
    assert e in db.Table(ById);
    j :| 0 <= j < |db.ids| && db.ids[j] == e;
  }

  lemma OnlyIdsAreIndexed(db: Db, p: nat) returns (i: nat)
    requires ExactIndex(db, ById) && p < |db.ids|
    ensures i < |db.rows| && db.ids[p].group == db.rows[i].note.id && db.ids[p].key == DupRank(db.rows[i].key)
  {
    assert db.ids[p] in db.Table(ById);
    assert Indexed(db.rows, ById, db.ids[p]);
    i :| 0 <= i < |db.rows| && db.ids[p] in Entries(ById, db.rows[i].note, db.rows[i].key);
  }

  /** The id index answers exactly: the row holding the id, or 0. */
  lemma KeyByIdExact(db: Db, id: Id)
    requires Exact(db) && Narrow(db)
    ensures KeyById(db, id) <= |db.rows|
    ensures KeyById(db, id) > 0 ==> db.rows[KeyById(db, id) - 1].note.id == id
    ensures KeyById(db, id) == 0 ==> forall i :: 0 <= i < |db.rows| ==> db.rows[i].note.id != id
  {
    hide DupRank, ExactIndex, Sorted, IdsAreUnique;
    IdsAreSorted(db);
    var c := CursorStart(db.ids, id, U64 - 1);
    if c.Some? && db.ids[c.value].group == id {
      var i := OnlyIdsAreIndexed(db, c.value);
      DupRankInvolution(i + 1);
    } else {
      forall i | 0 <= i < |db.rows| ensures db.rows[i].note.id != id {
        if db.rows[i].note.id == id {
          var j := IdIsIndexed(db, i);
          CursorStartsInGroup(db.ids, id, U64 - 1, j);
        }
      }
    }
  }

  lemma IdsAreSorted(db: Db)
    requires Exact(db)
    ensures ExactIndex(db, ById) && Sorted(db.ids)
  {
    assert db.Table(ById) == db.ids;
  }

  // ---- writing ----

  // A message to the writer; `overwrite` 0 means a fresh note.
  datatype Msg = Msg(note: Note, overwrite: nat)

  datatype Written = Written(db: Db, reported: nat, queued: Option<Msg>)

  /** `handle_reprocessed_giftwrap`: ask for the stored giftwrap to be marked. */
  function Reprocess(db: Db, rumor: Note): Option<Msg>
  {
    var k := KeyById(db, rumor.wrapId);
    var wrap := db.NoteByKey(k);
    if k == 0 || wrap.None? then None
    else if wrap.value.unwrapped then None
    else Some(Msg(wrap.value.(unwrapped := true), k))
  }

  function StoreAt(db: Db, n: Note, key: nat): Db
  {
    Db(PutRow(db.rows, key, n),
       PutAll(db.ids, Entries(ById, n, key)),
       PutAll(db.kinds, Entries(ByKind, n, key)),
       PutAll(db.pubkeys, Entries(ByPubkey, n, key)),
       PutAll(db.pubkeyKinds, Entries(ByPubkeyKind, n, key)),
       PutAll(db.tags, Entries(ByTag, n, key)))
  }

  /** The note row that an incoming message would overwrite in place, if it is a
      rumor whose id is stored as plaintext. */
  function Promotes(db: Db, m: Msg): bool
  {
    var k := KeyById(db, m.note.id);
    m.overwrite == 0 && k != 0 && m.note.rumor && db.NoteByKey(k).Some? && !db.NoteByKey(k).value.rumor
  }

  /** `ndb_write_note` on the note table and its indexes. */
  function WriteNote(db: Db, m: Msg): Written
  {
    var existing := KeyById(db, m.note.id);
    var promoted := Promotes(db, m);
    if m.overwrite == 0 && existing != 0 && !promoted then
      Written(db, 0, None)
    else
      var queued := if m.note.rumor then Reprocess(db, m.note) else None;
      var key := if promoted then existing else if m.overwrite != 0 then m.overwrite else db.LastKey() + 1;
      Written(StoreAt(db, m.note, key), if promoted then 0 else key, queued)
  }

  // ---- the invariant over one write ----

  /** An overwriting message names a stored row with the same committed fields. */
  ghost predicate Matches(db: Db, m: Msg)
  {
    m.overwrite != 0 ==>
      0 < m.overwrite <= |db.rows|
      && db.rows[m.overwrite - 1].note.id == m.note.id
      && db.rows[m.overwrite - 1].note.body == m.note.body
  }

  /** Equal ids mean equal committed fields. */
  ghost predicate Agrees(db: Db, n: Note)
  {
    forall i :: 0 <= i < |db.rows| && db.rows[i].note.id == n.id ==> db.rows[i].note.body == n.body
  }

  lemma StoredRows(rows: seq<Row>, rows': seq<Row>, n: Note, key: nat, w: Which, e: Entry)
    requires KeysAreConsecutive(rows) && 0 < key <= |rows| + 1
    requires rows' == if key == |rows| + 1 then rows + [Row(key, n)] else rows[key - 1 := Row(key, n)]
    requires key <= |rows| ==> rows[key - 1].note.id == n.id && rows[key - 1].note.body == n.body
    ensures Indexed(rows', w, e) <==> Indexed(rows, w, e) || e in Entries(w, n, key)
  {
    hide Entries;
    if Indexed(rows, w, e) {
      var i :| 0 <= i < |rows| && e in Entries(w, rows[i].note, rows[i].key);
      if i == key - 1 { SameBodySameEntries(w, rows[i].note, n, key); }
      assert e in Entries(w, rows'[i].note, rows'[i].key);
    }
    if e in Entries(w, n, key) {
      assert e in Entries(w, rows'[key - 1].note, rows'[key - 1].key);
    }
    if Indexed(rows', w, e) {
      var i :| 0 <= i < |rows'| && e in Entries(w, rows'[i].note, rows'[i].key);
      if i != key - 1 { assert e in Entries(w, rows[i].note, rows[i].key); }
    }
  }

  lemma StoredIndexIsExact(db: Db, n: Note, key: nat, rows: seq<Row>, w: Which)
    requires Exact(db) && 0 < key <= |db.rows| + 1
    requires key <= |db.rows| ==> db.rows[key - 1].note.id == n.id && db.rows[key - 1].note.body == n.body
    requires rows == if key == |db.rows| + 1 then db.rows + [Row(key, n)] else db.rows[key - 1 := Row(key, n)]
    ensures var t := PutAll(db.Table(w), Entries(w, n, key));
      Sorted(t) && forall e :: e in t <==> Indexed(rows, w, e)
  {
    hide Sorted, Indexed, Entries, PutAll, KeysAreConsecutive;
    assert ExactIndex(db, w);
    PutAllInserts(db.Table(w), Entries(w, n, key));
    forall e ensures e in PutAll(db.Table(w), Entries(w, n, key)) <==> Indexed(rows, w, e) {
      StoredRows(db.rows, rows, n, key, w, e);
      assert e in db.Table(w) <==> Indexed(db.rows, w, e);
    }
  }

  lemma StoredTables(db: Db, n: Note, key: nat, w: Which)
    ensures StoreAt(db, n, key).Table(w) == PutAll(db.Table(w), Entries(w, n, key))
    ensures StoreAt(db, n, key).rows == PutRow(db.rows, key, n)
  {
    hide PutAll, Entries, PutRow;
  }

  lemma StoredIsExact(db: Db, n: Note, key: nat)
    requires Exact(db) && 0 < key <= |db.rows| + 1
    requires key <= |db.rows| ==> db.rows[key - 1].note.id == n.id && db.rows[key - 1].note.body == n.body
    ensures StoreAt(db, n, key).rows ==
      if key == |db.rows| + 1 then db.rows + [Row(key, n)] else db.rows[key - 1 := Row(key, n)]
    ensures forall w :: ExactIndex(StoreAt(db, n, key), w)
  {
    PutConsecutive(db.rows, 0, key, n);
    hide Sorted, Indexed, Entries, PutAll, PutRow, StoreAt, IdsAreUnique, KeysAreConsecutive;
    StoredTables(db, n, key, ById);
    forall w ensures ExactIndex(StoreAt(db, n, key), w) {
      StoredTables(db, n, key, w);
      StoredIndexIsExact(db, n, key, StoreAt(db, n, key).rows, w);
    }
  }

  /** Storing a new id at the end, or a stored id again in place, keeps the image exact. */
  lemma StoredKeepsExact(db: Db, n: Note, key: nat)
    requires Exact(db) && 0 < key <= |db.rows| + 1
    requires if key <= |db.rows| then db.rows[key - 1].note.id == n.id && db.rows[key - 1].note.body == n.body
             else forall i :: 0 <= i < |db.rows| ==> db.rows[i].note.id != n.id
    ensures Exact(StoreAt(db, n, key))
    ensures StoreAt(db, n, key).rows ==
      if key == |db.rows| + 1 then db.rows + [Row(key, n)] else db.rows[key - 1 := Row(key, n)]
  {
    hide ExactIndex, StoreAt;
    StoredIsExact(db, n, key);
  }

  /** How one write changes the rows: nothing, a new last row, or the same
      committed fields stored again in place. */
  ghost predicate WroteRows(db: Db, m: Msg, r: Written)
  {
    var k := KeyById(db, m.note.id);
    && k <= |db.rows|
    && m.overwrite <= |db.rows|
    && if m.overwrite != 0 then
         r.db.rows == db.rows[m.overwrite - 1 := Row(m.overwrite, m.note)] && r.reported == m.overwrite
       else if k == 0 then
         r.db.rows == db.rows + [Row(|db.rows| + 1, m.note)] && r.reported == |db.rows| + 1
       else if m.note.rumor && !db.rows[k - 1].note.rumor then
         r.db.rows == db.rows[k - 1 := Row(k, m.note)] && r.reported == 0
       else
         r.db == db && r.reported == 0
  }

  lemma WriteShape(db: Db, m: Msg)
    requires Exact(db) && Narrow(db) && Matches(db, m) && Agrees(db, m.note)
    ensures WroteRows(db, m, WriteNote(db, m))
    ensures Exact(WriteNote(db, m).db)
    ensures WriteNote(db, m).queued.Some? ==> WriteNote(db, m).queued == Reprocess(db, m.note)
  {
    hide StoreAt, KeyById, ExactIndex, IdsAreUnique, Reprocess;
    KeyByIdExact(db, m.note.id);
    var k := KeyById(db, m.note.id);
    LookupConsecutive(db.rows, 0, k);
    if m.overwrite != 0 || k == 0 || Promotes(db, m) {
      var key := if Promotes(db, m) then k else if m.overwrite != 0 then m.overwrite else db.LastKey() + 1;
      StoredKeepsExact(db, m.note, key);
    }
  }

  /** What the writer queues for itself always overwrites a stored giftwrap with
      nothing changed but its UNWRAPPED flag. */
  lemma ReprocessMatches(db: Db, rumor: Note)
    requires Exact(db) && Narrow(db) && Reprocess(db, rumor).Some?
    ensures var m := Reprocess(db, rumor).value;
      && 0 < m.overwrite <= |db.rows|
      && m.note == db.rows[m.overwrite - 1].note.(unwrapped := true)
      && m.note.id == rumor.wrapId
      && !db.rows[m.overwrite - 1].note.unwrapped
  {
    KeyByIdExact(db, rumor.wrapId);
    LookupConsecutive(db.rows, 0, KeyById(db, rumor.wrapId));
  }

  /** A fresh message is refused when its id is stored, unless a rumor meets plaintext. */
  ghost predicate Refused(db: Db, m: Msg)
  {
    m.overwrite == 0
    && exists i :: 0 <= i < |db.rows| && db.rows[i].note.id == m.note.id && !(m.note.rumor && !db.rows[i].note.rumor)
  }

  lemma RefusedIff(db: Db, m: Msg)
    requires Exact(db) && Narrow(db)
    ensures Refused(db, m) <==> m.overwrite == 0 && KeyById(db, m.note.id) != 0 && !Promotes(db, m)
  {
    hide KeyById, ExactIndex;
    KeyByIdExact(db, m.note.id);
    LookupConsecutive(db.rows, 0, KeyById(db, m.note.id));
  }

  /** The row that a rumor came out of, as long as it is not marked. */
  ghost predicate AwaitsMark(db: Db, rumor: Note, i: int)
  {
    0 <= i < |db.rows| && db.rows[i].note.id == rumor.wrapId && !db.rows[i].note.unwrapped
  }

  lemma ReprocessIff(db: Db, rumor: Note)
    requires Exact(db) && Narrow(db)
    ensures Reprocess(db, rumor).Some? <==> exists i :: AwaitsMark(db, rumor, i)
    ensures forall i :: AwaitsMark(db, rumor, i) ==> Reprocess(db, rumor) == Some(Msg(db.rows[i].note.(unwrapped := true), i + 1))
  {
    hide KeyById, ExactIndex;
    KeyByIdExact(db, rumor.wrapId);
    var k := KeyById(db, rumor.wrapId);
    LookupConsecutive(db.rows, 0, k);
    if k > 0 && !db.rows[k - 1].note.unwrapped { assert AwaitsMark(db, rumor, k - 1); }
  }

  /** A write asks for a giftwrap to be marked if and only if it writes a rumor whose
      giftwrap is stored and not marked; and then for that row, marked, under its key. */
  lemma QueuedIff(db: Db, m: Msg)
    requires Exact(db) && Narrow(db)
    ensures WriteNote(db, m).queued.Some? <==> m.note.rumor && !Refused(db, m) && exists i :: AwaitsMark(db, m.note, i)
    ensures forall i :: m.note.rumor && !Refused(db, m) && AwaitsMark(db, m.note, i) ==>
      WriteNote(db, m).queued == Some(Msg(db.rows[i].note.(unwrapped := true), i + 1))
  {
    hide StoreAt, Reprocess, KeyById, Exact, Refused, AwaitsMark, Promotes;
    RefusedIff(db, m);
    ReprocessIff(db, m.note);
  }

  // ---- every run of the writer ----

  // The store and the writer's inbox. Ingesters push fresh notes; the writer
  // takes the oldest message and appends what `handle_reprocessed_giftwrap` asks for.
  datatype Writer = Writer(db: Db, inbox: seq<Msg>)

  datatype Action = Push(note: Note) | Take

  function Step(s: Writer, a: Action): Writer
  {
    match a
    case Push(n) => s.(inbox := s.inbox + [Msg(n, 0)])
    case Take =>
      if s.inbox == [] then s
      else
        var r := WriteNote(s.db, s.inbox[0]);
        Writer(r.db, s.inbox[1..] + if r.queued.Some? then [r.queued.value] else [])
  }

  function Run(s: Writer, actions: seq<Action>): Writer
    decreases |actions|
  {
    if actions == [] then s else Run(Step(s, actions[0]), actions[1..])
  }

  /** Ids commit: `committed` gives the body that an id stands for. */
  ghost predicate Honest(committed: Id -> Body, n: Note)
  {
    n.body == committed(n.id) && n.body.createdAt < U32 && n.body.kind < U32
  }

  ghost predicate WriterInv(committed: Id -> Body, s: Writer)
  {
    && Exact(s.db) && Narrow(s.db)
    && (forall i :: 0 <= i < |s.db.rows| ==> Honest(committed, s.db.rows[i].note))
    && (forall i :: 0 <= i < |s.inbox| ==> Honest(committed, s.inbox[i].note) && Matches(s.db, s.inbox[i]))
  }

  /** Rows are only ever added or stored again with the same committed fields. */
  ghost predicate Extends(rows: seq<Row>, rows': seq<Row>)
  {
    |rows| <= |rows'| && forall i :: 0 <= i < |rows| ==> SameCommitted(rows[i].note, rows'[i].note)
  }

  ghost predicate SameCommitted(m: Note, n: Note)
  {
    m.id == n.id && m.body == n.body
  }

  lemma WriteExtends(committed: Id -> Body, db: Db, m: Msg)
    requires Exact(db) && Narrow(db) && Matches(db, m) && Honest(committed, m.note)
    requires forall i :: 0 <= i < |db.rows| ==> Honest(committed, db.rows[i].note)
    ensures var db' := WriteNote(db, m).db;
      && Exact(db') && Extends(db.rows, db'.rows) && |db'.rows| <= |db.rows| + 1
      && forall i :: 0 <= i < |db'.rows| ==> Honest(committed, db'.rows[i].note)
  {
    hide WriteNote, ExactIndex, KeyById;
    WriteShape(db, m);
    KeyByIdExact(db, m.note.id);
  }

  lemma TakeKeepsInv(committed: Id -> Body, s: Writer)
    requires WriterInv(committed, s) && |s.db.rows| + 1 < U32 && s.inbox != []
    ensures WriterInv(committed, Step(s, Take))
    ensures |Step(s, Take).db.rows| <= |s.db.rows| + 1
  {
    hide WriteNote, Reprocess, KeyById, ExactIndex;
    var m := s.inbox[0];
    var r := WriteNote(s.db, m);
    WriteExtends(committed, s.db, m);
    WriteShape(s.db, m);
    if r.queued.Some? {
      ReprocessMatches(s.db, m.note);
      assert Honest(committed, s.db.rows[r.queued.value.overwrite - 1].note);
      assert Honest(committed, r.queued.value.note) && Matches(s.db, r.queued.value);
    }
    var inbox' := Step(s, Take).inbox;
    forall i | 0 <= i < |inbox'| ensures Honest(committed, inbox'[i].note) && Matches(r.db, inbox'[i]) {
      var q := if i < |s.inbox| - 1 then s.inbox[i + 1] else r.queued.value;
      assert inbox'[i] == q && Honest(committed, q.note) && Matches(s.db, q);
      if q.overwrite != 0 {
        assert SameCommitted(s.db.rows[q.overwrite - 1].note, r.db.rows[q.overwrite - 1].note);
      }
    }
  }

  lemma StepKeepsInv(committed: Id -> Body, s: Writer, a: Action)
    requires WriterInv(committed, s) && |s.db.rows| + 1 < U32
    requires a.Push? ==> Honest(committed, a.note)
    ensures WriterInv(committed, Step(s, a))
    ensures |Step(s, a).db.rows| <= |s.db.rows| + 1
  {
    if a.Take? {
      if s.inbox != [] { TakeKeepsInv(committed, s); }
    }
  }

  lemma {:induction false} RunKeepsInv(committed: Id -> Body, s: Writer, actions: seq<Action>)
    requires WriterInv(committed, s) && |s.db.rows| + |actions| < U32
    requires forall i :: 0 <= i < |actions| && actions[i].Push? ==> Honest(committed, actions[i].note)
    ensures WriterInv(committed, Run(s, actions))
    decreases |actions|
  {
    if actions != [] {
      StepKeepsInv(committed, s, actions[0]);
      RunKeepsInv(committed, Step(s, actions[0]), actions[1..]);
    }
  }

  lemma EmptyIsExact()
    ensures Exact(EMPTY) && Narrow(EMPTY)
  {
    forall w ensures ExactIndex(EMPTY, w) {
    }
  }

  /** Over every run of the writer from an empty store - duplicates, in-place
      promotions and UNWRAPPED overwrites included - note keys stay 1..n, ids stay
      unique, and all five indexes are exact images of the note table. */
  lemma EveryRunIsExact(committed: Id -> Body, actions: seq<Action>)
    requires |actions| < U32
    requires forall i :: 0 <= i < |actions| && actions[i].Push? ==> Honest(committed, actions[i].note)
    ensures Exact(Run(Writer(EMPTY, []), actions).db)
    ensures Narrow(Run(Writer(EMPTY, []), actions).db)
  {
    EmptyIsExact();
    RunKeepsInv(committed, Writer(EMPTY, []), actions);
  }

  // ---- a giftwrap gets its mark ----

  ghost predicate MarkedRow(rows: seq<Row>, id: Id)
  {
    exists i :: 0 <= i < |rows| && rows[i].note.id == id && rows[i].note.unwrapped
  }

  predicate WillMark(m: Msg, id: Id)
  {
    m.overwrite != 0 && m.note.id == id && m.note.unwrapped
  }

  ghost predicate MarkPending(s: Writer, id: Id)
  {
    MarkedRow(s.db.rows, id) || exists j :: 0 <= j < |s.inbox| && WillMark(s.inbox[j], id)
  }

  /** Writing `m` leaves a mark on the row of `id` alone. What would not: the same note
      again as a rumor that has not been unwrapped, which may take the row's place. */
  predicate LeavesMark(m: Msg, id: Id)
  {
    m.note.id == id ==> m.note.unwrapped || (m.overwrite == 0 && !m.note.rumor)
  }

  ghost predicate AllLeaveMark(inbox: seq<Msg>, id: Id)
  {
    forall j :: 0 <= j < |inbox| ==> LeavesMark(inbox[j], id)
  }

  lemma WriteLeavesMark(committed: Id -> Body, db: Db, m: Msg, id: Id)
    requires Exact(db) && Narrow(db) && Matches(db, m) && Agrees(db, m.note) && LeavesMark(m, id)
    ensures MarkedRow(db.rows, id) || WillMark(m, id) ==> MarkedRow(WriteNote(db, m).db.rows, id)
  {
    hide WriteNote, KeyById, ExactIndex, IdsAreUnique, KeysAreConsecutive, Reprocess;
    WriteShape(db, m);
    KeyByIdExact(db, m.note.id);
    var rows' := WriteNote(db, m).db.rows;
    if WillMark(m, id) {
      assert rows'[m.overwrite - 1].note.unwrapped;
    } else if i :| 0 <= i < |db.rows| && db.rows[i].note.id == id && db.rows[i].note.unwrapped {
      assert rows'[i].note.id == id && rows'[i].note.unwrapped;
    }
  }

  lemma TakeKeepsPending(committed: Id -> Body, s: Writer, id: Id)
    requires WriterInv(committed, s) && s.inbox != []
    requires MarkPending(s, id) && AllLeaveMark(s.inbox, id)
    ensures MarkPending(Step(s, Take), id) && AllLeaveMark(Step(s, Take).inbox, id)
  {
    hide WriteNote, Exact, Narrow, LeavesMark, MarkedRow;
    assert Honest(committed, s.inbox[0].note) && Matches(s.db, s.inbox[0]) && LeavesMark(s.inbox[0], id);
    WriteLeavesMark(committed, s.db, s.inbox[0], id);
    QueuedLeavesMark(s, id);
    var inbox' := Step(s, Take).inbox;
    if j :| 0 <= j < |s.inbox| && WillMark(s.inbox[j], id) {
      if j > 0 { assert inbox'[j - 1] == s.inbox[j]; }
    }
    forall j | 0 <= j < |inbox'| ensures LeavesMark(inbox'[j], id) {
      if j < |s.inbox| - 1 { assert inbox'[j] == s.inbox[j + 1]; }
    }
  }

  lemma QueuedLeavesMark(s: Writer, id: Id)
    requires Exact(s.db) && Narrow(s.db) && s.inbox != []
    ensures var q := WriteNote(s.db, s.inbox[0]).queued;
      q.Some? ==> LeavesMark(q.value, id)
  {
    hide WriteNote, Exact, Narrow, Refused;
    QueuedIff(s.db, s.inbox[0]);
  }

  lemma {:induction false} RunKeepsPending(committed: Id -> Body, s: Writer, actions: seq<Action>, id: Id)
    requires WriterInv(committed, s) && |s.db.rows| + |actions| < U32
    requires forall i :: 0 <= i < |actions| && actions[i].Push? ==>
      Honest(committed, actions[i].note) && LeavesMark(Msg(actions[i].note, 0), id)
    requires MarkPending(s, id) && AllLeaveMark(s.inbox, id)
    ensures MarkPending(Run(s, actions), id)
    decreases |actions|
  {
    hide WriterInv, MarkPending, AllLeaveMark, Honest, LeavesMark;
    if actions != [] {
      var a := actions[0];
      StepKeepsInv(committed, s, a);
      match a {
        case Push(n) => PushKeepsPending(s, n, id);
        case Take => if s.inbox != [] { TakeKeepsPending(committed, s, id); }
      }
      RunKeepsPending(committed, Step(s, a), actions[1..], id);
    }
  }

  lemma PushKeepsPending(s: Writer, n: Note, id: Id)
    requires MarkPending(s, id) && AllLeaveMark(s.inbox, id) && LeavesMark(Msg(n, 0), id)
    ensures MarkPending(Step(s, Push(n)), id) && AllLeaveMark(Step(s, Push(n)).inbox, id)
  {
    hide MarkedRow, LeavesMark;
    if j :| 0 <= j < |s.inbox| && WillMark(s.inbox[j], id) {
      assert Step(s, Push(n)).inbox[j] == s.inbox[j];
    }
  }

  /** When the writer takes a rumor that it does not refuse, and the giftwrap is stored,
      then however it goes on, once its inbox is drained the giftwrap carries the flag. */
  lemma GiftwrapIsMarked(committed: Id -> Body, s: Writer, actions: seq<Action>)
    requires WriterInv(committed, s) && |s.db.rows| + 1 + |actions| < U32 && s.inbox != []
    requires var m := s.inbox[0];
      && m.note.rumor && !Refused(s.db, m)
      && (exists i :: 0 <= i < |s.db.rows| && s.db.rows[i].note.id == m.note.wrapId)
      && AllLeaveMark(s.inbox, m.note.wrapId)
      && forall i :: 0 <= i < |actions| && actions[i].Push? ==>
           Honest(committed, actions[i].note) && LeavesMark(Msg(actions[i].note, 0), m.note.wrapId)
    requires Run(Step(s, Take), actions).inbox == []
    ensures MarkedRow(Run(Step(s, Take), actions).db.rows, s.inbox[0].note.wrapId)
  {
    hide WriteNote, Exact, Narrow, Honest, LeavesMark, Refused, Run;
    var m := s.inbox[0];
    var id := m.note.wrapId;
    var i :| 0 <= i < |s.db.rows| && s.db.rows[i].note.id == id;
    var s' := Step(s, Take);
    TakeKeepsInv(committed, s);
    QueuedIff(s.db, m);
    QueuedLeavesMark(s, id);
    if s.db.rows[i].note.unwrapped {
      TakeKeepsPending(committed, s, id);
    } else {
      assert AwaitsMark(s.db, m.note, i);
      assert WillMark(s'.inbox[|s'.inbox| - 1], id);
      forall j | 0 <= j < |s'.inbox| ensures LeavesMark(s'.inbox[j], id) {
        if j < |s.inbox| - 1 { assert s'.inbox[j] == s.inbox[j + 1]; }
      }
    }
    RunKeepsPending(committed, s', actions, id);
  }

  /** What `LeavesMark` excludes does happen: a marked giftwrap stored as plaintext loses
      its mark when it comes again as a rumor that has not been unwrapped. */
  lemma PromotionClearsMark(db: Db, m: Msg, i: nat)
    requires Exact(db) && Narrow(db) && m.overwrite == 0 && Agrees(db, m.note) && i < |db.rows|
    requires db.rows[i].note.id == m.note.id && db.rows[i].note.unwrapped && !db.rows[i].note.rumor
    requires m.note.rumor && !m.note.unwrapped
    ensures !MarkedRow(WriteNote(db, m).db.rows, m.note.id)
  {
    hide WriteNote, KeyById, ExactIndex, Reprocess;
    WriteShape(db, m);
    KeyByIdExact(db, m.note.id);
  }
}
