/** The monitor's subscription array and its inboxes, updated in place. */
module Monitors {
  import opened Notes
  import opened Database
  import opened Filters
  import opened Queues
  import opened Delivery

  datatype Slot = Slot(subid: nat, group: seq<Filter>, inbox: ProtQueue<nat>)

  /** Taking a prefix of one live inbox is a poll. */
  lemma IsPoll(m: Mon, m': Mon, id: nat, out: seq<nat>)
    requires var i := Find(m.subs, id);
      && id != 0 && i < |m.subs| == |m'.subs| && m'.subids == m.subids
      && m'.subs[i].subid == id && m'.subs[i].group == m.subs[i].group && m.subs[i].inbox == out + m'.subs[i].inbox
      && forall j :: 0 <= j < |m.subs| && j != i ==> m'.subs[j] == m.subs[j]
    ensures out == Polled(m, id, |out|) && m' == Delivery.Poll(m, id, |out|)
    ensures Live(m, id) && SubOf(m, id).inbox == out + m'.subs[Find(m.subs, id)].inbox
  {
    var i := Find(m.subs, id);
    assert m'.subs[i].inbox == m.subs[i].inbox[|out|..];
    assert m'.subs == m.subs[i := m.subs[i].(inbox := m.subs[i].inbox[|out|..])];
  }

  /** What a subscribe does, pointwise. */
  lemma IsSubscribe(m: Mon, m': Mon, id: nat, group: seq<Filter>)
    requires
      if |m.subs| + 1 >= MAX_SUBSCRIPTIONS then id == 0 && m'.subids == m.subids && m'.subs == m.subs
      else
        && m'.subids == (m.subids + 1) % U64
        && if |group| > MAX_FILTERS then id == 0 && m'.subs == m.subs
           else
             && id == m'.subids && |m'.subs| == |m.subs| + 1 && m'.subs[|m.subs|] == Subscription(id, group, [])
             && forall j :: 0 <= j < |m.subs| ==> m'.subs[j] == m.subs[j]
    ensures (m', id) == Delivery.Subscribe(m, group)
  {
    if |m'.subs| == |m.subs| + 1 {
      assert m'.subs == m.subs + [m'.subs[|m.subs|]];
    }
  }

  /** Closing the gap over one live subscription is an unsubscribe. */
  lemma IsUnsubscribe(m: Mon, m': Mon, id: nat)
    requires var i := Find(m.subs, id);
      && m'.subids == m.subids
      && |m'.subs| == |m.subs| - (if i < |m.subs| then 1 else 0)
      && forall j :: 0 <= j < |m'.subs| ==> m'.subs[j] == m.subs[if j < i then j else j + 1]
    ensures m' == Delivery.Unsubscribe(m, id)
  {
    var i := Find(m.subs, id);
    if i < |m.subs| {
      Removed(m.subs, i);
      assert m'.subs == m.subs[..i] + m.subs[i + 1..];
    } else {
      assert m'.subs == m.subs;
    }
  }

  class Monitor {
    var slots: seq<Slot>
    var subids: nat

    ghost function Repr(): set<object>
      reads this
    {
      (set i | 0 <= i < |slots| :: slots[i].inbox as object) + (set i | 0 <= i < |slots| :: slots[i].inbox.buf as object)
    }

    /** Inboxes are separate objects with separate buffers. */
    ghost predicate Valid()
      reads this, Repr()
    {
      && (forall i :: 0 <= i < |slots| ==> slots[i].inbox.Valid() && slots[i].inbox.buf.Length == DEFAULT_QUEUE_SIZE)
      && (forall i, j :: 0 <= i < j < |slots| ==>
            slots[i].inbox != slots[j].inbox && slots[i].inbox.buf != slots[j].inbox.buf)
    }

    ghost function Sub(i: nat): Subscription
      requires Valid() && i < |slots|
      reads this, Repr()
    {
      Subscription(slots[i].subid, slots[i].group, slots[i].inbox.Contents())
    }

    ghost function State(): (m: Mon)
      requires Valid()
      reads this, Repr()
      ensures |m.subs| == |slots| && m.subids == subids
      ensures forall i :: 0 <= i < |slots| ==> m.subs[i] == Sub(i)
    {
      Mon(seq(|slots|, i reads this, Repr() requires Valid() && 0 <= i < |slots| => Sub(i)), subids)
    }

    constructor ()
      ensures Valid() && State() == NOBODY
    {
      slots, subids := [], 0;
    }

    /** `ndb_monitor_find_subscription` */
    method FindSubscription(id: nat) returns (i: nat)
      requires Valid()
      ensures State() == old(State())
      ensures i == Find(State().subs, id) <= |slots|
    {
      i := 0;
      while i < |slots|
        invariant i <= |slots|
        invariant forall j :: 0 <= j < i ==> slots[j].subid != id
      {
        if slots[i].subid == id {
          FindAt(State().subs, id, i);
          return;
        }
        i := i + 1;
      }
      assert forall j :: 0 <= j < |slots| ==> State().subs[j].subid == slots[j].subid;
    }

    /** `ndb_subscribe` */
    method Subscribe(group: seq<Filter>) returns (id: nat)
      requires Valid()
      modifies this
      ensures Valid() && fresh(Repr() - old(Repr()))
      ensures (State(), id) == Delivery.Subscribe(old(State()), group)
    {
      hide GroupMatches, Delivery.Subscribe;
      id := 0;
      if |slots| + 1 < MAX_SUBSCRIPTIONS {
        subids := (subids + 1) % U64;
        assert State().subs == old(State()).subs;
        if |group| <= MAX_FILTERS {
          id := subids;
          AddSlot(id, group);
        }
      }
      IsSubscribe(old(State()), State(), id, group);
    }

    /** The next free slot, with an inbox of its own. */
    method AddSlot(id: nat, group: seq<Filter>)
      requires Valid()
      modifies this`slots
      ensures Valid() && |slots| == |old(slots)| + 1 && fresh(Repr() - old(Repr()))
      ensures Sub(|slots| - 1) == Subscription(id, group, [])
      ensures forall j :: 0 <= j < |old(slots)| ==> Sub(j) == old(State()).subs[j]
    {
      var buf := new nat[DEFAULT_QUEUE_SIZE];
      var inbox := new ProtQueue(buf);
      slots := slots + [Slot(id, group, inbox)];
    }

    /** The `memmove` over slot `i`. */
    method RemoveAt(i: nat)
      requires Valid() && i < |slots|
      modifies this`slots
      ensures Valid() && |slots| == |old(slots)| - 1
      ensures forall j :: 0 <= j < |slots| ==> Sub(j) == old(State()).subs[if j < i then j else j + 1]
    {
      Removed(slots, i);
      slots := slots[..i] + slots[i + 1..];
    }

    /** `ndb_unsubscribe` */
    method Unsubscribe(id: nat) returns (ok: bool)
      requires Valid()
      modifies this`slots
      ensures Valid()
      ensures State() == Delivery.Unsubscribe(old(State()), id)
      ensures ok == Live(old(State()), id)
    {
      ghost var m := State();
      var i := FindSubscription(id);
      ok := i < |slots|;
      if ok {
        RemoveAt(i);
        IsUnsubscribe(m, State(), id);
      } else {
        IsUnsubscribe(m, m, id);
      }
    }

    /** Take from the inbox in slot `i`. */
    method TakeFrom(i: nat, capacity: nat) returns (ids: seq<nat>)
      requires Valid() && i < |slots|
      modifies slots[i].inbox
      ensures Valid()
      ensures old(Sub(i).inbox) == ids + Sub(i).inbox
      ensures |ids| <= capacity && (ids == [] <==> capacity == 0 || old(Sub(i).inbox) == [])
      ensures forall j :: 0 <= j < |slots| && j != i ==> Sub(j) == old(Sub(j))
    {
      ids := slots[i].inbox.TryPopAll(capacity);
    }

    /** `ndb_poll_for_notes` */
    method Poll(id: nat, capacity: nat) returns (ids: seq<nat>)
      requires Valid()
      modifies Repr()
      ensures Valid() && slots == old(slots)
      ensures |ids| <= capacity
      ensures ids == Polled(old(State()), id, |ids|)
      ensures State() == Delivery.Poll(old(State()), id, |ids|)
      ensures ids == [] <==> id == 0 || capacity == 0 || !Live(old(State()), id) || SubOf(old(State()), id).inbox == []
    {
      ids := [];
      if id != 0 {
        ghost var m := State();
        var i := FindSubscription(id);
        if i < |slots| {
          ids := TakeFrom(i, capacity);
          IsPoll(m, State(), id, ids);
        }
      }
    }

    /** The inner loop of `ndb_notify_subscriptions`, for slot `i`. */
    method Offer(i: nat, wrote: seq<Reported>)
      requires Valid() && i < |slots|
      modifies slots[i].inbox, slots[i].inbox.buf
      ensures Valid()
      ensures Sub(i).inbox == Fill(old(Sub(i).inbox), slots[i].group, wrote)
      ensures forall j :: 0 <= j < |slots| && j != i ==> Sub(j) == old(Sub(j))
    {
      PushMatching(slots[i].inbox, slots[i].group, wrote);
    }

    /** `ndb_notify_subscriptions` */
    method NotifySubscriptions(wrote: seq<Reported>)
      requires Valid()
      modifies Repr()
      ensures Valid() && slots == old(slots)
      ensures State() == Notify(old(State()), wrote)
    {
      hide GroupMatches, Fill;
      ghost var m := State();
      var i := 0;
      while i < |slots|
        invariant 0 <= i <= |slots| && slots == old(slots) && subids == old(subids)
        invariant Valid()
        invariant forall j :: i <= j < |slots| ==> Sub(j) == m.subs[j]
        invariant forall j :: 0 <= j < i ==> Sub(j) == Notify(m, wrote).subs[j]
      {
        Offer(i, wrote);
        i := i + 1;
      }
      assert State() == Notify(m, wrote);
    }
  }

  method PushMatching(q: ProtQueue<nat>, group: seq<Filter>, wrote: seq<Reported>)
    requires q.Valid() && q.buf.Length == DEFAULT_QUEUE_SIZE
    modifies q, q.buf
    ensures q.Valid() && q.Contents() == Fill(old(q.Contents()), group, wrote)
  {
    hide GroupMatches;
    var k := 0;
    while k < |wrote|
      invariant 0 <= k <= |wrote|
      invariant q.Valid() && Fill(q.Contents(), group, wrote[k..]) == Fill(old(q.Contents()), group, wrote)
    {
      assert wrote[k..][0] == wrote[k] && wrote[k..][1..] == wrote[k + 1..];
      if GroupMatches(group, wrote[k].note) {
        var ok := q.Push(wrote[k].key);
      }
      k := k + 1;
    }
  }
}
