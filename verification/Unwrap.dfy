/** Ingester threads peeling giftwraps, and the one writer, as atomic steps. */
module Unwrap {
  import opened Tables
  import opened Notes
  import opened Database

  // What each ingester thread has still to push to the writer's inbox.
  datatype System = System(writer: Writer, threads: seq<seq<Note>>)

  datatype Event =
    | Ingest(thread: nat, chain: seq<Note>)          // a note off the wire
    | PeelAgain(thread: nat, row: nat, chain: seq<Note>)  // a stored giftwrap dispatched again, as some snapshot shows it
    | Emit(thread: nat)                              // one prot_queue_push
    | Write                                          // the writer handles one message

  /** What peeling can uncover: each note is the rumor inside the one before it,
      as far as the keys at hand reach. Nothing is marked unwrapped yet. */
  ghost predicate Peels(rumorIn: Id -> Id, chain: seq<Note>)
  {
    && (forall i :: 0 <= i < |chain| ==> !chain[i].unwrapped)
    && (forall i :: 0 < i < |chain| ==>
          chain[i].rumor && chain[i].wrapId == chain[i - 1].id && chain[i].id == rumorIn(chain[i - 1].id))
  }

  /** The order in which `ndb_ingester_process_note` pushes: it processes the inner
      note first, then marks and pushes the wrapper. */
  function Pushes(chain: seq<Note>): seq<Note>
  {
    if chain == [] then []
    else if |chain| == 1 then chain
    else Pushes(chain[1..]) + [chain[0].(unwrapped := true)]
  }

  /** The innermost note comes first, as it is, and every wrapper after what it wraps,
      marked. */
  lemma {:induction false} PushesAre(chain: seq<Note>)
    ensures |Pushes(chain)| == |chain|
    ensures chain != [] ==> Pushes(chain)[0] == chain[|chain| - 1]
    ensures forall i :: 0 < i < |chain| ==> Pushes(chain)[i] == chain[|chain| - 1 - i].(unwrapped := true)
    decreases |chain|
  {
    if |chain| > 1 {
      PushesAre(chain[1..]);
    }
  }

  function Next(s: System, e: Event): System
  {
    match e
    case Ingest(t, chain) =>
      if t < |s.threads| && s.threads[t] == [] then s.(threads := s.threads[t := Pushes(chain)]) else s
    case PeelAgain(t, row, chain) =>
      // the marked giftwrap is a copy in scratch memory: only what is inside is pushed
      if t < |s.threads| && s.threads[t] == [] && chain != [] then s.(threads := s.threads[t := Pushes(chain[1..])]) else s
    case Emit(t) =>
      if t < |s.threads| && s.threads[t] != [] then
        System(Step(s.writer, Push(s.threads[t][0])), s.threads[t := s.threads[t][1..]])
      else s
    case Write => s.(writer := Step(s.writer, Take))
  }

  function RunEvents(s: System, events: seq<Event>): System
    decreases |events|
  {
    if events == [] then s else RunEvents(Next(s, events[0]), events[1..])
  }

  /** What the environment may do: wire notes are plain and honest, and peeling
      starts from a wire note or from a stored one. A stored giftwrap is read in the
      thread's own snapshot and its flag is not looked at again, so it may have been
      marked since, or be marked already. */
  ghost predicate Allowed(rumorIn: Id -> Id, committed: Id -> Body, s: System, e: Event)
  {
    match e
    case Ingest(t, chain) =>
      && Peels(rumorIn, chain) && (forall i :: 0 <= i < |chain| ==> Honest(committed, chain[i]))
      && (chain != [] ==> !chain[0].rumor)
    case PeelAgain(t, row, chain) =>
      && (forall i :: 0 <= i < |chain| ==> Honest(committed, chain[i]))
      && (chain != [] ==>
            && Peels(rumorIn, chain[0 := chain[0].(unwrapped := false)])
            && row < |s.writer.db.rows| && SameCommitted(chain[0], s.writer.db.rows[row].note))
    case _ => true
  }

  ghost predicate AllAllowed(rumorIn: Id -> Id, committed: Id -> Body, s: System, events: seq<Event>)
    decreases |events|
  {
    events == [] || (Allowed(rumorIn, committed, s, events[0])
                     && AllAllowed(rumorIn, committed, Next(s, events[0]), events[1..]))
  }

  // ---- the property ----

  ghost predicate Stored(rows: seq<Row>, id: Id)
  {
    exists i :: 0 <= i < |rows| && rows[i].note.id == id
  }

  ghost predicate Queued(inbox: seq<Msg>, n: int, id: Id)
    requires n <= |inbox|
  {
    exists j :: 0 <= j < n && inbox[j].note.id == id
  }

  ghost predicate Ahead(pending: seq<Note>, n: int, id: Id)
    requires n <= |pending|
  {
    exists j :: 0 <= j < n && pending[j].id == id
  }

  /** Every note marked UNWRAPPED, stored or queued, has its rumor stored or queued
      ahead of it. */
  ghost predicate UnwrapSafe(rumorIn: Id -> Id, w: Writer)
  {
    && (forall i :: 0 <= i < |w.db.rows| && w.db.rows[i].note.unwrapped ==> Stored(w.db.rows, rumorIn(w.db.rows[i].note.id)))
    && (forall i :: 0 <= i < |w.inbox| && w.inbox[i].note.unwrapped ==>
          Stored(w.db.rows, rumorIn(w.inbox[i].note.id)) || Queued(w.inbox, i, rumorIn(w.inbox[i].note.id)))
  }

  // ---- the invariant ----

  /** A note flagged as a rumor is the one inside the giftwrap it names. */
  ghost predicate RealRumor(rumorIn: Id -> Id, n: Note)
  {
    n.rumor ==> n.id == rumorIn(n.wrapId)
  }

  ghost predicate RealRumors(rumorIn: Id -> Id, w: Writer)
  {
    && (forall i :: 0 <= i < |w.db.rows| ==> RealRumor(rumorIn, w.db.rows[i].note))
    && (forall i :: 0 <= i < |w.inbox| ==> RealRumor(rumorIn, w.inbox[i].note))
  }

  /** What a thread has pending is safe to push in order. */
  ghost predicate PendingSafe(rumorIn: Id -> Id, committed: Id -> Body, w: Writer, p: seq<Note>)
  {
    forall i :: 0 <= i < |p| ==>
      && Honest(committed, p[i]) && RealRumor(rumorIn, p[i])
      && (p[i].unwrapped ==>
            Stored(w.db.rows, rumorIn(p[i].id)) || Queued(w.inbox, |w.inbox|, rumorIn(p[i].id)) || Ahead(p, i, rumorIn(p[i].id)))
  }

  ghost predicate Inv(rumorIn: Id -> Id, committed: Id -> Body, s: System)
  {
    && WriterInv(committed, s.writer)
    && UnwrapSafe(rumorIn, s.writer) && RealRumors(rumorIn, s.writer)
    && forall t :: 0 <= t < |s.threads| ==> PendingSafe(rumorIn, committed, s.writer, s.threads[t])
  }

  /** Peeled notes are pushed innermost first, so each marked wrapper follows its rumor. */
  lemma {:induction false} PushesAreSafe(rumorIn: Id -> Id, committed: Id -> Body, w: Writer, chain: seq<Note>)
    requires Peels(rumorIn, chain) && forall i :: 0 <= i < |chain| ==> Honest(committed, chain[i])
    requires chain != [] ==> RealRumor(rumorIn, chain[0])
    ensures PendingSafe(rumorIn, committed, w, Pushes(chain))
    ensures chain != [] ==> Pushes(chain) != [] && Pushes(chain)[|Pushes(chain)| - 1].id == chain[0].id
    decreases |chain|
  {
    if |chain| > 1 {
      var tail := chain[1..];
      assert RealRumor(rumorIn, chain[1]);
      assert forall i :: 0 < i < |tail| ==> tail[i] == chain[i + 1] && tail[i - 1] == chain[i];
      PushesAreSafe(rumorIn, committed, w, tail);
      var q, p := Pushes(tail), Pushes(chain);
      var last := chain[0].(unwrapped := true);
      assert p == q + [last];
      forall i | 0 <= i < |p|
        ensures Honest(committed, p[i]) && RealRumor(rumorIn, p[i])
        ensures p[i].unwrapped ==> Stored(w.db.rows, rumorIn(p[i].id)) || Queued(w.inbox, |w.inbox|, rumorIn(p[i].id))
                                   || Ahead(p, i, rumorIn(p[i].id))
      {
        if i < |q| {
          if Ahead(q, i, rumorIn(p[i].id)) {
            var j :| 0 <= j < i && q[j].id == rumorIn(p[i].id);
            assert p[j].id == rumorIn(p[i].id);
          }
        } else {
          assert p[|q| - 1].id == chain[1].id == rumorIn(chain[0].id);
        }
      }
    }
  }

  /** More stored ids and a longer inbox keep pending pushes safe. */
  lemma PendingStaysSafe(rumorIn: Id -> Id, committed: Id -> Body, w: Writer, w': Writer, p: seq<Note>)
    requires PendingSafe(rumorIn, committed, w, p)
    requires forall id :: Stored(w.db.rows, id) || Queued(w.inbox, |w.inbox|, id)
                     ==> Stored(w'.db.rows, id) || Queued(w'.inbox, |w'.inbox|, id)
    ensures PendingSafe(rumorIn, committed, w', p)
  {
  }

  lemma EmitKeepsInv(rumorIn: Id -> Id, committed: Id -> Body, s: System, t: nat)
    requires Inv(rumorIn, committed, s) && t < |s.threads| && s.threads[t] != []
    requires |s.writer.db.rows| + 1 < U32
    ensures Inv(rumorIn, committed, Next(s, Emit(t)))
  {
    var n, rest := s.threads[t][0], s.threads[t][1..];
    var w, w' := s.writer, Step(s.writer, Push(n));
    assert PendingSafe(rumorIn, committed, w, s.threads[t]);
    StepKeepsInv(committed, w, Push(n));
    QueueGrows(w, w', Msg(n, 0));
    forall i | 0 <= i < |w'.inbox| && w'.inbox[i].note.unwrapped
      ensures Stored(w'.db.rows, rumorIn(w'.inbox[i].note.id)) || Queued(w'.inbox, i, rumorIn(w'.inbox[i].note.id))
    {
      if i < |w.inbox| {
        QueuedPrefix(w.inbox, w'.inbox, i, rumorIn(w.inbox[i].note.id));
      } else {
        QueuedPrefix(w.inbox, w'.inbox, i, rumorIn(n.id));
      }
    }
    forall u | 0 <= u < |s.threads| ensures PendingSafe(rumorIn, committed, w', Next(s, Emit(t)).threads[u]) {
      assert PendingSafe(rumorIn, committed, w, s.threads[u]);
      PendingStaysSafe(rumorIn, committed, w, w', s.threads[u]);
      if u == t {
        PendingTail(rumorIn, committed, w', s.threads[t]);
      }
    }
  }

  lemma QueuedPrefix(inbox: seq<Msg>, inbox': seq<Msg>, n: nat, id: Id)
    requires n <= |inbox| <= |inbox'| && inbox'[..|inbox|] == inbox
    ensures Queued(inbox, n, id) ==> Queued(inbox', n, id)
  {
    if Queued(inbox, n, id) {
      var j :| 0 <= j < n && inbox[j].note.id == id;
      assert inbox'[..|inbox|][j] == inbox'[j];
    }
  }

  lemma QueueGrows(w: Writer, w': Writer, m: Msg)
    requires w'.db == w.db && w'.inbox == w.inbox + [m]
    ensures forall id :: Queued(w.inbox, |w.inbox|, id) ==> Queued(w'.inbox, |w'.inbox|, id)
    ensures Queued(w'.inbox, |w'.inbox|, m.note.id)
    ensures w'.inbox[..|w.inbox|] == w.inbox
  {
    assert w'.inbox[|w.inbox|] == m;
    forall id | Queued(w.inbox, |w.inbox|, id) ensures Queued(w'.inbox, |w'.inbox|, id) {
      QueuedPrefix(w.inbox, w'.inbox, |w.inbox|, id);
      var j :| 0 <= j < |w.inbox| && w'.inbox[j].note.id == id;
    }
  }

  /** Once the first pending note is queued, the rest is safe on its own. */
  lemma PendingTail(rumorIn: Id -> Id, committed: Id -> Body, w: Writer, p: seq<Note>)
    requires p != [] && PendingSafe(rumorIn, committed, w, p) && Queued(w.inbox, |w.inbox|, p[0].id)
    ensures PendingSafe(rumorIn, committed, w, p[1..])
  {
    var q := p[1..];
    forall i | 0 <= i < |q|
      ensures Honest(committed, q[i]) && RealRumor(rumorIn, q[i])
      ensures q[i].unwrapped ==> Stored(w.db.rows, rumorIn(q[i].id)) || Queued(w.inbox, |w.inbox|, rumorIn(q[i].id))
                                 || Ahead(q, i, rumorIn(q[i].id))
    {
      assert q[i] == p[i + 1];
      var id := rumorIn(q[i].id);
      if Ahead(p, i + 1, id) {
        var j :| 0 <= j < i + 1 && p[j].id == id;
        if j > 0 { assert q[j - 1].id == id; }
      }
    }
  }

  /** The writer storing a message makes its id stored, and forgets none. */
  lemma WriteStores(committed: Id -> Body, db: Db, m: Msg)
    requires Exact(db) && Narrow(db) && Matches(db, m) && Honest(committed, m.note)
    requires forall i :: 0 <= i < |db.rows| ==> Honest(committed, db.rows[i].note)
    ensures var db' := WriteNote(db, m).db;
      && Stored(db'.rows, m.note.id)
      && (forall id :: Stored(db.rows, id) ==> Stored(db'.rows, id))
      && (forall i :: 0 <= i < |db'.rows| ==> db'.rows[i].note == m.note || (i < |db.rows| && db'.rows[i].note == db.rows[i].note))
  {
    hide WriteNote, ExactIndex, KeyById;
    WriteShape(db, m);
    KeyByIdExact(db, m.note.id);
    WriteExtends(committed, db, m);
    var r := WriteNote(db, m);
    var k := KeyById(db, m.note.id);
    var at := if m.overwrite != 0 then m.overwrite - 1 else if k == 0 then |db.rows| else k - 1;
    assert r.db.rows[at].note.id == m.note.id;
    forall id | Stored(db.rows, id) ensures Stored(r.db.rows, id) {
      var i :| 0 <= i < |db.rows| && db.rows[i].note.id == id;
      assert SameCommitted(db.rows[i].note, r.db.rows[i].note);
    }
  }

  lemma WriteKeepsInv(rumorIn: Id -> Id, committed: Id -> Body, s: System)
    requires Inv(rumorIn, committed, s) && |s.writer.db.rows| + 1 < U32 && s.writer.inbox != []
    ensures Inv(rumorIn, committed, Next(s, Write))
  {
    hide WriteNote, ExactIndex, KeyById, Exact, Narrow, Honest;
    var w, w' := s.writer, Step(s.writer, Take);
    var m := w.inbox[0];
    var r := WriteNote(w.db, m);
    StepKeepsInv(committed, w, Take);
    WriteStores(committed, w.db, m);
    var tail := w.inbox[1..];
    QueuedIsReal(rumorIn, committed, w);
    assert w'.db == r.db && w'.inbox == tail + if r.queued.Some? then [r.queued.value] else [];
    forall id, i | 0 <= i <= |tail| && (Stored(w.db.rows, id) || Queued(w.inbox, i + 1, id))
      ensures Stored(w'.db.rows, id) || Queued(w'.inbox, i, id)
    {
      if !Stored(w.db.rows, id) {
        var j :| 0 <= j < i + 1 && w.inbox[j].note.id == id;
        if j > 0 { assert w'.inbox[j - 1].note.id == id; }
      }
    }
    forall i | 0 <= i < |w'.inbox| && w'.inbox[i].note.unwrapped
      ensures Stored(w'.db.rows, rumorIn(w'.inbox[i].note.id)) || Queued(w'.inbox, i, rumorIn(w'.inbox[i].note.id))
    {
      if i < |tail| {
        assert w'.inbox[i] == w.inbox[i + 1];
      }
    }
    forall i | 0 <= i < |w'.inbox| ensures RealRumor(rumorIn, w'.inbox[i].note) {
      if i < |tail| {
        assert w'.inbox[i] == w.inbox[i + 1];
      }
    }
    forall t | 0 <= t < |s.threads| ensures PendingSafe(rumorIn, committed, w', s.threads[t]) {
      assert |tail| + 1 == |w.inbox|;
      forall id | Stored(w.db.rows, id) || Queued(w.inbox, |w.inbox|, id)
        ensures Stored(w'.db.rows, id) || Queued(w'.inbox, |w'.inbox|, id)
      {
        assert Stored(w'.db.rows, id) || Queued(w'.inbox, |tail|, id);
      }
      PendingStaysSafe(rumorIn, committed, w, w', s.threads[t]);
    }
  }

  /** What `handle_reprocessed_giftwrap` queues is a marked giftwrap whose rumor has
      just been stored. */
  lemma QueuedIsReal(rumorIn: Id -> Id, committed: Id -> Body, w: Writer)
    requires WriterInv(committed, w) && RealRumors(rumorIn, w) && w.inbox != []
    ensures var r := WriteNote(w.db, w.inbox[0]);
      r.queued.Some? ==> RealRumor(rumorIn, r.queued.value.note) && rumorIn(r.queued.value.note.id) == w.inbox[0].note.id
  {
    hide KeyById, StoreAt, ExactIndex;
    var m := w.inbox[0];
    var r := WriteNote(w.db, m);
    if r.queued.Some? {
      assert m.note.rumor && r.queued == Reprocess(w.db, m.note);
      ReprocessMatches(w.db, m.note);
      assert RealRumor(rumorIn, w.db.rows[r.queued.value.overwrite - 1].note);
    }
  }

  /** What a stored giftwrap peels to again is safe to push, however its flag stands. */
  lemma PeeledAgainIsSafe(rumorIn: Id -> Id, committed: Id -> Body, w: Writer, chain: seq<Note>)
    requires chain != [] && Peels(rumorIn, chain[0 := chain[0].(unwrapped := false)])
    requires forall i :: 0 <= i < |chain| ==> Honest(committed, chain[i])
    ensures PendingSafe(rumorIn, committed, w, Pushes(chain[1..]))
  {
    hide Honest, PendingSafe, Pushes;
    var tail, plain := chain[1..], chain[0 := chain[0].(unwrapped := false)];
    assert forall i :: 0 <= i < |tail| ==> tail[i] == chain[i + 1] == plain[i + 1];
    assert forall i :: 0 < i < |tail| ==> tail[i - 1] == plain[i];
    assert plain[0].id == chain[0].id;
    PushesAreSafe(rumorIn, committed, w, tail);
  }

  /** Starting to push what was peeled keeps the invariant. */
  lemma PeelKeepsInv(rumorIn: Id -> Id, committed: Id -> Body, s: System, t: nat, chain: seq<Note>)
    requires Inv(rumorIn, committed, s) && PendingSafe(rumorIn, committed, s.writer, Pushes(chain))
    ensures t < |s.threads| ==> Inv(rumorIn, committed, s.(threads := s.threads[t := Pushes(chain)]))
  {
    hide PendingSafe, Pushes, UnwrapSafe, RealRumors, WriterInv;
  }

  lemma NextKeepsInv(rumorIn: Id -> Id, committed: Id -> Body, s: System, e: Event)
    requires Inv(rumorIn, committed, s) && Allowed(rumorIn, committed, s, e) && |s.writer.db.rows| + 1 < U32
    ensures Inv(rumorIn, committed, Next(s, e))
    ensures |Next(s, e).writer.db.rows| <= |s.writer.db.rows| + 1
  {
    match e {
      case Ingest(t, chain) =>
        PushesAreSafe(rumorIn, committed, s.writer, chain);
        hide Inv, PendingSafe, Pushes, Peels;
        PeelKeepsInv(rumorIn, committed, s, t, chain);
      case PeelAgain(t, row, chain) =>
        hide Inv, PendingSafe, Pushes, Peels, Honest;
        if chain != [] {
          PeeledAgainIsSafe(rumorIn, committed, s.writer, chain);
          PeelKeepsInv(rumorIn, committed, s, t, chain[1..]);
        }
      case Emit(t) =>
        if t < |s.threads| && s.threads[t] != [] {
          EmitKeepsInv(rumorIn, committed, s, t);
          StepKeepsInv(committed, s.writer, Push(s.threads[t][0]));
        }
      case Write =>
        if s.writer.inbox != [] {
          WriteKeepsInv(rumorIn, committed, s);
          StepKeepsInv(committed, s.writer, Take);
        }
    }
  }

  lemma {:induction false} RunKeepsSafe(rumorIn: Id -> Id, committed: Id -> Body, s: System, events: seq<Event>)
    requires Inv(rumorIn, committed, s) && AllAllowed(rumorIn, committed, s, events)
    requires |s.writer.db.rows| + |events| < U32
    ensures Inv(rumorIn, committed, RunEvents(s, events))
    decreases |events|
  {
    if events != [] {
      NextKeepsInv(rumorIn, committed, s, events[0]);
      RunKeepsSafe(rumorIn, committed, Next(s, events[0]), events[1..]);
    }
  }

  /** In every interleaving of any number of ingester threads with the writer, from
      an empty store: an UNWRAPPED note never precedes its rumor. */
  lemma EveryInterleavingIsSafe(rumorIn: Id -> Id, committed: Id -> Body, threads: nat, events: seq<Event>)
    requires |events| < U32
    requires AllAllowed(rumorIn, committed, System(Writer(EMPTY, []), seq(threads, _ => [])), events)
    ensures UnwrapSafe(rumorIn, RunEvents(System(Writer(EMPTY, []), seq(threads, _ => [])), events).writer)
  {
    var s := System(Writer(EMPTY, []), seq(threads, _ => []));
    EmptyIsExact();
    hide Exact, RunEvents;
    RunKeepsSafe(rumorIn, committed, s, events);
  }
}
