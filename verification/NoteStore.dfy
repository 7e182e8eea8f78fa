/** The store as the writer thread updates it: one table after the other. */
module NoteStore {
  import opened Tables
  import opened Notes
  import opened Database

  lemma PutAllOne(t: seq<Entry>, e: Entry)
    ensures PutAll(t, [e]) == Put(t, e)
  {
    assert [e][1..] == [];
  }

  class Store {
    var rows: seq<Row>
    var ids: seq<Entry>
    var kinds: seq<Entry>
    var pubkeys: seq<Entry>
    var pubkeyKinds: seq<Entry>
    var tags: seq<Entry>

    function State(): Db
      reads this
    {
      Db(rows, ids, kinds, pubkeys, pubkeyKinds, tags)
    }

    constructor ()
      ensures State() == EMPTY
    {
      rows, ids, kinds, pubkeys, pubkeyKinds, tags := [], [], [], [], [], [];
    }

    /** `ndb_write_note_tag_index` */
    method WriteTagIndex(n: Note, key: nat)
      modifies this`tags
      ensures tags == PutAll(old(tags), Entries(ByTag, n, key))
    {
      hide Put, DupRank;
      var ts := n.body.tags;
      var i := 0;
      while i < |ts|
        invariant 0 <= i <= |ts|
        invariant PutAll(tags, TagEntries(ts[i..], n.body.createdAt, key))
               == PutAll(old(tags), Entries(ByTag, n, key))
      {
        var t := ts[i];
        assert ts[i..][1..] == ts[i + 1..];
        ghost var rest := TagEntries(ts[i + 1..], n.body.createdAt, key);
        assert [] + rest == rest;
        i := i + 1;
        if |t| < 2 {
          continue;
        }
        var tchar := t[0].CharAt(0);
        if tchar == 0 || t[0].CharAt(1) != 0 {
          continue;
        }
        var val := t[1].Bytes();
        var len := |val| % 256;
        if 1 + len + 8 > 255 {
          continue;
        }
        var e := Entry([tchar] + val[..len], n.body.createdAt % U32, DupRank(key));
        assert TagEntry(t, n.body.createdAt, key) == [e];
        assert ([e] + rest)[1..] == rest;
        tags := Put(tags, e);
      }
    }

    /** `ndb_write_note`: the note table, then each index. Returns the key to
        report to subscribers (0 for none) and the message, if any, that the
        writer sends itself. */
    method Write(m: Msg) returns (reported: nat, queued: Option<Msg>)
      modifies this
      ensures State() == WriteNote(old(State()), m).db
      ensures reported == WriteNote(old(State()), m).reported
      ensures queued == WriteNote(old(State()), m).queued
    {
      hide PutRow, Put, KeyById, DupRank, Reprocess, PutAll, Lookup;
      var overwrite := m.overwrite;
      var promoted := false;
      queued := None;
      var existing := KeyById(State(), m.note.id);
      if overwrite == 0 && existing != 0 {
        var stored := if m.note.rumor then State().NoteByKey(existing) else None;
        if stored.Some? && !stored.value.rumor {
          overwrite := existing;
          promoted := true;
        } else {
          return 0, None;
        }
      }
      if m.note.rumor {
        queued := Reprocess(State(), m.note);
      }
      ghost var db := State();
      var key := if overwrite != 0 then overwrite else State().LastKey() + 1;
      rows := PutRow(rows, key, m.note);
      ids := Put(ids, Entry(m.note.id, m.note.body.createdAt, DupRank(key)));
      kinds := Put(kinds, Entry([m.note.body.kind], m.note.body.createdAt, key));
      WriteTagIndex(m.note, key);
      pubkeys := Put(pubkeys, Entry(m.note.body.pubkey, m.note.body.createdAt % U32, key));
      pubkeyKinds := Put(pubkeyKinds, Entry(m.note.body.pubkey + [m.note.body.kind], m.note.body.createdAt % U32, key));
      PutAllOne(db.ids, Entry(m.note.id, m.note.body.createdAt, DupRank(key)));
      PutAllOne(db.kinds, Entry([m.note.body.kind], m.note.body.createdAt, key));
      PutAllOne(db.pubkeys, Entry(m.note.body.pubkey, m.note.body.createdAt % U32, key));
      PutAllOne(db.pubkeyKinds, Entry(m.note.body.pubkey + [m.note.body.kind], m.note.body.createdAt % U32, key));
      assert State() == StoreAt(db, m.note, key);
      reported := if promoted then 0 else key;
    }
  }
}
