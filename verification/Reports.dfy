/** The writer's batch loop and the monitor together: what is stored is reported,
    and what is delivered is stored. */
module Reports {
  import opened Notes
  import opened Database
  import opened Filters
  import opened Delivery

  datatype Node = Node(writer: Writer, mon: Mon)

  // Ingesters push notes, the writer handles a batch, clients call the monitor.
  datatype Event = Ingest(note: Note) | Batch(popped: nat) | Client(call: Delivery.Action)

  /** Handling the oldest message: the new writer state and what was written. A
      duplicate and a promotion in place report nothing. */
  function TakeOne(w: Writer): (Writer, seq<Reported>)
    requires w.inbox != []
  {
    var reported := WriteNote(w.db, w.inbox[0]).reported;
    (Database.Step(w, Take), if reported > 0 then [Reported(reported, w.inbox[0].note)] else [])
  }

  /** Handling `n` messages. */
  function TakeAll(w: Writer, n: nat): (Writer, seq<Reported>)
    decreases n
  {
    if n == 0 || w.inbox == [] then (w, [])
    else
      var (w1, now) := TakeOne(w);
      var (w2, rest) := TakeAll(w1, n - 1);
      (w2, now + rest)
  }

  /** The batch is popped before it is handled, so what the writer sends itself
      waits for the next one. Subscribers hear of it once it is committed. */
  function Next(s: Node, e: Event): Node
  {
    match e
    case Ingest(n) => s.(writer := Database.Step(s.writer, Push(n)))
    case Batch(popped) =>
      var (w, wrote) := TakeAll(s.writer, if popped < |s.writer.inbox| then popped else |s.writer.inbox|);
      Node(w, Notify(s.mon, wrote))
    case Client(call) => if call.Notifying? then s else s.(mon := Delivery.Step(s.mon, call))
  }

  function RunEvents(s: Node, events: seq<Event>): Node
    decreases |events|
  {
    if events == [] then s else RunEvents(Next(s, events[0]), events[1..])
  }

  /** `key` holds the committed fields of `n`. */
  ghost predicate StoredAs(rows: seq<Row>, key: nat, n: Note)
  {
    0 < key <= |rows| && SameCommitted(rows[key - 1].note, n)
  }

  /** `key` holds a note that matched `group` when it was reported. */
  ghost predicate Deliverable(rows: seq<Row>, group: seq<Filter>, key: nat)
  {
    exists n :: StoredAs(rows, key, n) && GroupMatches(group, n)
  }

  ghost predicate AllDeliverable(rows: seq<Row>, m: Mon)
  {
    forall i, j :: 0 <= i < |m.subs| && 0 <= j < |m.subs[i].inbox| ==> Deliverable(rows, m.subs[i].group, m.subs[i].inbox[j])
  }

  lemma ExtendsKeeps(rows: seq<Row>, rows': seq<Row>, key: nat, n: Note)
    requires Extends(rows, rows') && StoredAs(rows, key, n)
    ensures StoredAs(rows', key, n)
  {
    assert SameCommitted(rows[key - 1].note, rows'[key - 1].note);
  }

  lemma ExtendsTrans(a: seq<Row>, b: seq<Row>, c: seq<Row>)
    requires Extends(a, b) && Extends(b, c)
    ensures Extends(a, c)
  {
    forall i | 0 <= i < |a| ensures SameCommitted(a[i].note, c[i].note) {
      assert SameCommitted(a[i].note, b[i].note) && SameCommitted(b[i].note, c[i].note);
    }
  }

  ghost predicate AllStored(rows: seq<Row>, wrote: seq<Reported>)
  {
    forall i :: 0 <= i < |wrote| ==> StoredAs(rows, wrote[i].key, wrote[i].note)
  }

  ghost predicate ReportedKey(wrote: seq<Reported>, key: nat)
  {
    exists i :: 0 <= i < |wrote| && wrote[i].key == key
  }

  /** From `w` to `w'`, only stored notes are reported, and every added row is. */
  ghost predicate Reports(committed: Id -> Body, w: Writer, w': Writer, wrote: seq<Reported>, n: nat)
  {
    && WriterInv(committed, w')
    && Extends(w.db.rows, w'.db.rows) && |w'.db.rows| <= |w.db.rows| + n
    && AllStored(w'.db.rows, wrote)
    && forall key :: |w.db.rows| < key <= |w'.db.rows| ==> ReportedKey(wrote, key)
  }

  lemma TakeReports(committed: Id -> Body, w: Writer)
    requires WriterInv(committed, w) && |w.db.rows| + 1 < U32 && w.inbox != []
    ensures Reports(committed, w, TakeOne(w).0, TakeOne(w).1, 1)
  {
    hide WriteNote, Exact, Narrow, KeyById, Reprocess;
    var m := w.inbox[0];
    var r := WriteNote(w.db, m);
    TakeKeepsInv(committed, w);
    WriteExtends(committed, w.db, m);
    WriteShape(w.db, m);
    if |r.db.rows| > |w.db.rows| {
      assert [Reported(r.reported, m.note)][0].key == |r.db.rows|;
    }
  }

  lemma {:induction false} BatchReports(committed: Id -> Body, w: Writer, n: nat)
    requires WriterInv(committed, w) && |w.db.rows| + n < U32
    ensures Reports(committed, w, TakeAll(w, n).0, TakeAll(w, n).1, n)
    decreases n
  {
    hide TakeOne;
    if n == 0 || w.inbox == [] {
      forall i | 0 <= i < |w.db.rows| ensures SameCommitted(w.db.rows[i].note, w.db.rows[i].note) {
      }
    } else {
      hide WriterInv, Extends, AllStored;
      var (w1, now) := TakeOne(w);
      TakeReports(committed, w);
      BatchReports(committed, w1, n - 1);
      var (w2, rest) := TakeAll(w1, n - 1);
      ReportsCompose(w.db.rows, w1.db.rows, w2.db.rows, now, rest);
    }
  }

  lemma ReportsCompose(rows: seq<Row>, rows1: seq<Row>, rows2: seq<Row>, now: seq<Reported>, rest: seq<Reported>)
    requires Extends(rows, rows1) && Extends(rows1, rows2) && AllStored(rows1, now) && AllStored(rows2, rest)
    requires forall key :: |rows| < key <= |rows1| ==> ReportedKey(now, key)
    requires forall key :: |rows1| < key <= |rows2| ==> ReportedKey(rest, key)
    ensures Extends(rows, rows2) && AllStored(rows2, now + rest)
    ensures forall key :: |rows| < key <= |rows2| ==> ReportedKey(now + rest, key)
  {
    ExtendsTrans(rows, rows1, rows2);
    forall i | 0 <= i < |now| ensures StoredAs(rows2, now[i].key, now[i].note) {
      assert StoredAs(rows1, now[i].key, now[i].note);
      ExtendsKeeps(rows1, rows2, now[i].key, now[i].note);
    }
    forall key | |rows| < key <= |rows2| ensures ReportedKey(now + rest, key) {
      if key <= |rows1| {
        assert ReportedKey(now, key);
        var i :| 0 <= i < |now| && now[i].key == key;
        assert (now + rest)[i].key == key;
      } else {
        assert ReportedKey(rest, key);
        var i :| 0 <= i < |rest| && rest[i].key == key;
        assert (now + rest)[|now| + i].key == key;
      }
    }
  }

  lemma {:induction false} MatchingIsDeliverable(rows: seq<Row>, group: seq<Filter>, wrote: seq<Reported>, j: nat)
    requires AllStored(rows, wrote) && j < |Matching(group, wrote)|
    ensures Deliverable(rows, group, Matching(group, wrote)[j])
    decreases |wrote|
  {
    hide GroupMatches, StoredAs;
    if GroupMatches(group, wrote[0].note) && j == 0 {
      assert StoredAs(rows, wrote[0].key, wrote[0].note);
    } else {
      MatchingIsDeliverable(rows, group, wrote[1..], if GroupMatches(group, wrote[0].note) then j - 1 else j);
    }
  }

  lemma NotifyDelivers(rows: seq<Row>, m: Mon, wrote: seq<Reported>)
    requires MonInv(m) && AllDeliverable(rows, m) && AllStored(rows, wrote)
    ensures AllDeliverable(rows, Notify(m, wrote))
  {
    hide Deliverable, AllStored, Fill, Matching;
    forall i, j | 0 <= i < |m.subs| && 0 <= j < |Notify(m, wrote).subs[i].inbox|
      ensures Deliverable(rows, m.subs[i].group, Notify(m, wrote).subs[i].inbox[j])
    {
      var s := m.subs[i];
      FillKeepsOldest(s.inbox, s.group, wrote);
      if j >= |s.inbox| { MatchingIsDeliverable(rows, s.group, wrote, j - |s.inbox|); }
    }
  }

  lemma ClientKeeps(rows: seq<Row>, m: Mon, call: Delivery.Action)
    requires MonInv(m) && AllDeliverable(rows, m) && m.subids + 1 < U64 && !call.Notifying?
    ensures AllDeliverable(rows, Delivery.Step(m, call))
  {
    hide Deliverable;
    var m' := Delivery.Step(m, call);
    match call {
      case Subscribing(group) =>
      case Unsubscribing(id) =>
        if Live(m, id) { Removed(m.subs, Find(m.subs, id)); }
      case Polling(id, n) =>
    }
  }

  lemma GrowingKeeps(rows: seq<Row>, rows': seq<Row>, m: Mon)
    requires AllDeliverable(rows, m) && Extends(rows, rows')
    ensures AllDeliverable(rows', m)
  {
    forall i, j | 0 <= i < |m.subs| && 0 <= j < |m.subs[i].inbox|
      ensures Deliverable(rows', m.subs[i].group, m.subs[i].inbox[j])
    {
      hide GroupMatches, StoredAs;
      var key := m.subs[i].inbox[j];
      assert Deliverable(rows, m.subs[i].group, key);
      var n :| StoredAs(rows, key, n) && GroupMatches(m.subs[i].group, n);
      ExtendsKeeps(rows, rows', key, n);
    }
  }

  ghost predicate NodeInv(committed: Id -> Body, s: Node)
  {
    WriterInv(committed, s.writer) && MonInv(s.mon) && AllDeliverable(s.writer.db.rows, s.mon)
  }

  /** How many rows a run can add at most. */
  function Popped(events: seq<Event>): nat
  {
    if events == [] then 0 else (if events[0].Batch? then events[0].popped else 0) + Popped(events[1..])
  }

  lemma NextKeepsInv(committed: Id -> Body, s: Node, e: Event)
    requires NodeInv(committed, s) && |s.writer.db.rows| + Popped([e]) + 1 < U32 && s.mon.subids + 1 < U64
    requires e.Ingest? ==> Honest(committed, e.note)
    ensures NodeInv(committed, Next(s, e))
    ensures |Next(s, e).writer.db.rows| <= |s.writer.db.rows| + Popped([e])
    ensures Next(s, e).mon.subids <= s.mon.subids + 1
  {
    hide WriterInv, MonInv, AllDeliverable, Honest;
    match e {
      case Ingest(n) =>
        Database.StepKeepsInv(committed, s.writer, Push(n));
      case Batch(popped) =>
        var n := if popped < |s.writer.inbox| then popped else |s.writer.inbox|;
        assert [e][1..] == [];
        BatchReports(committed, s.writer, n);
        var (w, wrote) := TakeAll(s.writer, n);
        GrowingKeeps(s.writer.db.rows, w.db.rows, s.mon);
        NotifyDelivers(w.db.rows, s.mon, wrote);
        NotifyKeeps(s.mon, wrote, 0);
      case Client(call) =>
        if !call.Notifying? {
          StepKeeps(s.mon, call, 0);
          ClientKeeps(s.writer.db.rows, s.mon, call);
        }
    }
  }

  lemma {:induction false} RunKeepsInv(committed: Id -> Body, s: Node, events: seq<Event>)
    requires NodeInv(committed, s)
    requires |s.writer.db.rows| + Popped(events) + 1 < U32 && s.mon.subids + |events| < U64
    requires forall i :: 0 <= i < |events| && events[i].Ingest? ==> Honest(committed, events[i].note)
    ensures NodeInv(committed, RunEvents(s, events))
    decreases |events|
  {
    if events != [] {
      assert [events[0]][1..] == [];
      NextKeepsInv(committed, s, events[0]);
      RunKeepsInv(committed, Next(s, events[0]), events[1..]);
    }
  }

  /** In every run of ingesters, writer batches and client calls, whatever a poll
      hands out names a stored note with the committed fields of one that matched
      the subscription. */
  lemma PolledKeysAreStored(committed: Id -> Body, events: seq<Event>, id: nat, n: nat, j: nat)
    requires Popped(events) + 1 < U32 && |events| < U64
    requires forall i :: 0 <= i < |events| && events[i].Ingest? ==> Honest(committed, events[i].note)
    requires j < |Polled(RunEvents(Node(Writer(EMPTY, []), NOBODY), events).mon, id, n)|
    ensures var s := RunEvents(Node(Writer(EMPTY, []), NOBODY), events);
      Live(s.mon, id) && Deliverable(s.writer.db.rows, SubOf(s.mon, id).group, Polled(s.mon, id, n)[j])
  {
    hide RunEvents, Exact, Narrow, Deliverable;
    EmptyIsExact();
    RunKeepsInv(committed, Node(Writer(EMPTY, []), NOBODY), events);
  }
}
