/** Subscriptions: what the writer reports after a commit reaches every matching inbox. */
module Delivery {
  import opened Tables
  import opened Notes
  import opened Database
  import opened Filters

  const MAX_SUBSCRIPTIONS := 256
  const MAX_FILTERS := 16
  const DEFAULT_QUEUE_SIZE := 32768

  // A note the writer has committed, under its key.
  datatype Reported = Reported(key: nat, note: Note)

  datatype Subscription = Subscription(subid: nat, group: seq<Filter>, inbox: seq<nat>)

  // `subids` is the last id given out.
  datatype Mon = Mon(subs: seq<Subscription>, subids: nat)

  const NOBODY := Mon([], 0)

  /** `ndb_filter_group_matches`: no filter at all matches everything. */
  predicate GroupMatches(group: seq<Filter>, n: Note)
  {
    group == [] || exists i :: 0 <= i < |group| && FilterMatches(group[i], n)
  }

  /** The keys of the reported notes that match, in order. */
  function Matching(group: seq<Filter>, wrote: seq<Reported>): seq<nat>
  {
    if wrote == [] then []
    else (if GroupMatches(group, wrote[0].note) then [wrote[0].key] else []) + Matching(group, wrote[1..])
  }

  /** A group accepts what its filters do, one or another; without filters, everything. */
  lemma GroupIsUnion(a: seq<Filter>, f: Filter, b: seq<Filter>, n: Note)
    ensures GroupMatches([], n)
    ensures GroupMatches([f], n) <==> FilterMatches(f, n)
    ensures a != [] && b != [] ==> (GroupMatches(a + b, n) <==> GroupMatches(a, n) || GroupMatches(b, n))
  {
    hide FilterMatches;
    assert [f][0] == f;
    if a != [] && b != [] {
      if i :| 0 <= i < |a| && FilterMatches(a[i], n) {
        assert (a + b)[i] == a[i];
      }
      if i :| 0 <= i < |b| && FilterMatches(b[i], n) {
        assert (a + b)[|a| + i] == b[i];
      }
    }
  }

  lemma MatchingCons(group: seq<Filter>, r: Reported, rest: seq<Reported>)
    ensures Matching(group, [r] + rest) == (if GroupMatches(group, r.note) then [r.key] else []) + Matching(group, rest)
  {
    assert ([r] + rest)[1..] == rest;
  }

  /** Keys are due in the order they were reported in. */
  lemma {:induction false} MatchingSplits(group: seq<Filter>, a: seq<Reported>, b: seq<Reported>)
    ensures Matching(group, a + b) == Matching(group, a) + Matching(group, b)
    decreases |a|
  {
    if a == [] {
      assert a + b == b;
    } else {
      hide Matching, GroupMatches;
      MatchingSplits(group, a[1..], b);
      MatchingCons(group, a[0], a[1..]);
      MatchingCons(group, a[0], a[1..] + b);
      assert a == [a[0]] + a[1..] && a + b == [a[0]] + (a[1..] + b);
    }
  }

  /** Some filter of the group matches, or there is none. */
  ghost predicate Wants(group: seq<Filter>, n: Note)
  {
    group == [] || exists f :: f in group && FilterMatches(f, n)
  }

  /** A key is due exactly when a note was reported under it that the group wants. */
  lemma {:induction false} MatchingIff(group: seq<Filter>, wrote: seq<Reported>, k: nat)
    ensures k in Matching(group, wrote) <==> exists r :: r in wrote && r.key == k && Wants(group, r.note)
    decreases |wrote|
  {
    hide FilterMatches;
    if wrote != [] {
      MatchingIff(group, wrote[1..], k);
      assert GroupMatches(group, wrote[0].note) <==> Wants(group, wrote[0].note);
      hide GroupMatches, Wants;
      assert wrote == [wrote[0]] + wrote[1..];
    }
  }

  /** Each matching key is pushed; a full inbox drops it. */
  function Fill(inbox: seq<nat>, group: seq<Filter>, wrote: seq<Reported>): seq<nat>
    decreases |wrote|
  {
    if wrote == [] then inbox
    else if GroupMatches(group, wrote[0].note) && |inbox| < DEFAULT_QUEUE_SIZE then
      Fill(inbox + [wrote[0].key], group, wrote[1..])
    else Fill(inbox, group, wrote[1..])
  }

  // ---- one step of the monitor, under its lock ----

  /** `ndb_monitor_find_subscription`: the number of subscriptions when there is none. */
  function Find(subs: seq<Subscription>, id: nat): (i: nat)
    ensures i <= |subs|
    ensures i < |subs| ==> subs[i].subid == id
    ensures forall j :: 0 <= j < i ==> subs[j].subid != id
  {
    if subs == [] || subs[0].subid == id then 0 else 1 + Find(subs[1..], id)
  }

  predicate Live(m: Mon, id: nat)
  {
    Find(m.subs, id) < |m.subs|
  }

  function SubOf(m: Mon, id: nat): Subscription
    requires Live(m, id)
  {
    m.subs[Find(m.subs, id)]
  }

  /** `ndb_subscribe`: the new id, or 0. One slot always stays unused, and an id is
      spent even when the filters do not fit. */
  function Subscribe(m: Mon, group: seq<Filter>): (Mon, nat)
  {
    if |m.subs| + 1 >= MAX_SUBSCRIPTIONS then (m, 0)
    else
      var id := (m.subids + 1) % U64;
      if |group| > MAX_FILTERS then (m.(subids := id), 0)
      else (Mon(m.subs + [Subscription(id, group, [])], id), id)
  }

  /** `ndb_unsubscribe`: later subscriptions move down one slot. */
  function Unsubscribe(m: Mon, id: nat): Mon
  {
    var i := Find(m.subs, id);
    if i == |m.subs| then m else m.(subs := m.subs[..i] + m.subs[i + 1..])
  }

  /** `ndb_notify_subscriptions` */
  function Notify(m: Mon, wrote: seq<Reported>): Mon
  {
    m.(subs := seq(|m.subs|, i requires 0 <= i < |m.subs| =>
      m.subs[i].(inbox := Fill(m.subs[i].inbox, m.subs[i].group, wrote))))
  }

  /** `ndb_poll_for_notes` handing out `n` keys; how many it can hand out at once
      depends on where the ring wraps. */
  function Polled(m: Mon, id: nat, n: nat): seq<nat>
  {
    if id == 0 || !Live(m, id) then []
    else
      var inbox := SubOf(m, id).inbox;
      inbox[..if n < |inbox| then n else |inbox|]
  }

  function Poll(m: Mon, id: nat, n: nat): Mon
  {
    if id == 0 || !Live(m, id) then m
    else
      var i := Find(m.subs, id);
      m.(subs := m.subs[i := m.subs[i].(inbox := m.subs[i].inbox[|Polled(m, id, n)|..])])
  }

  datatype Action =
    | Subscribing(group: seq<Filter>)
    | Unsubscribing(id: nat)
    | Notifying(wrote: seq<Reported>)
    | Polling(id: nat, n: nat)

  function Step(m: Mon, a: Action): Mon
  {
    match a
    case Subscribing(group) => Subscribe(m, group).0
    case Unsubscribing(id) => Unsubscribe(m, id)
    case Notifying(wrote) => Notify(m, wrote)
    case Polling(id, n) => Poll(m, id, n)
  }

  function Run(m: Mon, actions: seq<Action>): Mon
    decreases |actions|
  {
    if actions == [] then m else Run(Step(m, actions[0]), actions[1..])
  }

  // ---- what a subscriber sees over a run ----

  /** Everything handed out to `id`. */
  function AllPolled(m: Mon, id: nat, actions: seq<Action>): seq<nat>
    decreases |actions|
  {
    if actions == [] then []
    else
      var now := if actions[0].Polling? && actions[0].id == id then Polled(m, id, actions[0].n) else [];
      now + AllPolled(Step(m, actions[0]), id, actions[1..])
  }

  /** Everything reported that `group` matches. */
  function AllDue(group: seq<Filter>, actions: seq<Action>): seq<nat>
  {
    if actions == [] then []
    else
      var now := if actions[0].Notifying? then Matching(group, actions[0].wrote) else [];
      now + AllDue(group, actions[1..])
  }

  /** No step reports more than the inbox of `id` has room for. */
  predicate NeverFull(m: Mon, id: nat, actions: seq<Action>)
    decreases |actions|
  {
    actions == []
    || (Live(m, id)
        && (actions[0].Notifying? ==>
              |SubOf(m, id).inbox| + |Matching(SubOf(m, id).group, actions[0].wrote)| <= DEFAULT_QUEUE_SIZE)
        && NeverFull(Step(m, actions[0]), id, actions[1..]))
  }

  /** Live ids are distinct and were all given out. */
  ghost predicate MonInv(m: Mon)
  {
    && m.subids < U64
    && (forall i :: 0 <= i < |m.subs| ==> 0 < m.subs[i].subid <= m.subids && |m.subs[i].inbox| <= DEFAULT_QUEUE_SIZE)
    && (forall i, j :: 0 <= i < j < |m.subs| ==> m.subs[i].subid != m.subs[j].subid)
  }

  lemma FindAt(subs: seq<Subscription>, id: nat, i: nat)
    requires i < |subs| && subs[i].subid == id
    requires forall j :: 0 <= j < i ==> subs[j].subid != id
    ensures Find(subs, id) == i
  {
  }

  /** An inbox keeps the oldest keys that fit. */
  lemma {:induction false} FillKeepsOldest(inbox: seq<nat>, group: seq<Filter>, wrote: seq<Reported>)
    requires |inbox| <= DEFAULT_QUEUE_SIZE
    ensures var all := inbox + Matching(group, wrote);
      Fill(inbox, group, wrote) == all[..if |all| < DEFAULT_QUEUE_SIZE then |all| else DEFAULT_QUEUE_SIZE]
    decreases |wrote|
  {
    hide GroupMatches;
    var all := inbox + Matching(group, wrote);
    if wrote == [] {
      assert all == inbox;
    } else if GroupMatches(group, wrote[0].note) && |inbox| < DEFAULT_QUEUE_SIZE {
      var inbox' := inbox + [wrote[0].key];
      FillKeepsOldest(inbox', group, wrote[1..]);
      assert inbox' + Matching(group, wrote[1..]) == all;
    } else {
      FillKeepsOldest(inbox, group, wrote[1..]);
    }
  }

  /** So nothing is dropped exactly while no more than 32768 keys wait. */
  lemma NothingDroppedIff(inbox: seq<nat>, group: seq<Filter>, wrote: seq<Reported>)
    requires |inbox| <= 32768
    ensures Fill(inbox, group, wrote) == inbox + Matching(group, wrote) <==> |inbox| + |Matching(group, wrote)| <= 32768
  {
    hide Fill, Matching;
    FillKeepsOldest(inbox, group, wrote);
    var all := inbox + Matching(group, wrote);
    assert all[..|all|] == all;
  }

  /** `id` is live in both, with the same group, and now has `inbox` waiting. */
  ghost predicate Carries(m: Mon, m': Mon, id: nat, inbox: seq<nat>)
  {
    && Live(m, id) && Live(m', id)
    && SubOf(m', id).group == SubOf(m, id).group && SubOf(m', id).inbox == inbox
  }

  lemma SubscribeKeeps(m: Mon, group: seq<Filter>, id: nat)
    requires MonInv(m) && m.subids + 1 < U64
    ensures var m' := Subscribe(m, group).0;
      && MonInv(m') && m.subids <= m'.subids <= m.subids + 1
      && (Live(m, id) ==> Carries(m, m', id, SubOf(m, id).inbox))
      && (id <= m.subids && !Live(m, id) ==> !Live(m', id))
  {
    var m' := Subscribe(m, group).0;
    SubscribeInv(m, group);
    hide MonInv;
    if Live(m, id) {
      FindAt(m'.subs, id, Find(m.subs, id));
    }
  }

  lemma SubscribeInv(m: Mon, group: seq<Filter>)
    requires MonInv(m) && m.subids + 1 < U64
    ensures var m' := Subscribe(m, group).0;
      && MonInv(m') && m.subids <= m'.subids <= m.subids + 1
      && (|m'.subs| > |m.subs| ==> m'.subs == m.subs + [Subscription(m.subids + 1, group, [])])
      && (|m'.subs| <= |m.subs| ==> m'.subs == m.subs)
  {
    hide Find;
  }

  /** Subscribing succeeds exactly while there are fewer than 255 subscriptions, for up to 16
      filters; the id is one that no subscription has or had, with an empty inbox. */
  lemma SubscribeSucceedsIff(m: Mon, group: seq<Filter>)
    requires MonInv(m) && m.subids + 1 < U64
    ensures var (m', id) := Subscribe(m, group);
      && (id != 0 <==> |m.subs| < 255 && |group| <= 16)
      && (id != 0 ==> id > m.subids && !Live(m, id) && Live(m', id) && SubOf(m', id) == Subscription(id, group, []))
  {
    var (m', id) := Subscribe(m, group);
    if id != 0 {
      FindAt(m'.subs, id, |m.subs|);
    }
  }

  /** Removing a subscription changes nothing for another. */
  lemma UnsubscribeKeeps(m: Mon, other: nat, id: nat)
    requires MonInv(m)
    ensures var m' := Unsubscribe(m, other);
      && MonInv(m') && m'.subids == m.subids
      && (Live(m, id) && id != other ==> Carries(m, m', id, SubOf(m, id).inbox))
      && (!Live(m, id) || id == other ==> !Live(m', id))
  {
    hide MonInv, GroupMatches;
    var k := Find(m.subs, other);
    DistinctIds(m);
    if k < |m.subs| {
      RemovedFind(m.subs, k, id);
      RemoveInv(m, k);
    }
  }

  lemma DistinctIds(m: Mon)
    requires MonInv(m)
    ensures forall i, j :: 0 <= i < j < |m.subs| ==> m.subs[i].subid != m.subs[j].subid
  {
  }

  lemma RemoveInv(m: Mon, k: nat)
    requires MonInv(m) && k < |m.subs|
    ensures MonInv(m.(subs := m.subs[..k] + m.subs[k + 1..]))
  {
    Removed(m.subs, k);
  }

  lemma Removed<T>(s: seq<T>, k: nat)
    requires k < |s|
    ensures var s' := s[..k] + s[k + 1..];
      |s'| == |s| - 1 && forall j :: 0 <= j < |s'| ==> s'[j] == s[if j < k then j else j + 1]
  {
  }

  lemma RemovedFind(subs: seq<Subscription>, k: nat, id: nat)
    requires k < |subs|
    requires forall i, j :: 0 <= i < j < |subs| ==> subs[i].subid != subs[j].subid
    ensures var i, subs' := Find(subs, id), subs[..k] + subs[k + 1..];
      && (i < |subs| && i != k ==> Find(subs', id) < |subs'| && subs'[Find(subs', id)] == subs[i])
      && (i == |subs| || i == k ==> Find(subs', id) == |subs'|)
  {
    var i, subs' := Find(subs, id), subs[..k] + subs[k + 1..];
    Removed(subs, k);
    if i < |subs| && i != k {
      FindAt(subs', id, if k < i then i - 1 else i);
    }
  }

  lemma NotifyKeeps(m: Mon, wrote: seq<Reported>, id: nat)
    requires MonInv(m)
    ensures var m' := Notify(m, wrote);
      && MonInv(m') && m'.subids == m.subids
      && (Live(m, id) ==> Carries(m, m', id, Fill(SubOf(m, id).inbox, SubOf(m, id).group, wrote)))
      && (!Live(m, id) ==> !Live(m', id))
  {
    var m' := Notify(m, wrote);
    forall j | 0 <= j < |m.subs| ensures |m'.subs[j].inbox| <= DEFAULT_QUEUE_SIZE {
      FillKeepsOldest(m.subs[j].inbox, m.subs[j].group, wrote);
    }
    if Live(m, id) { FindAt(m'.subs, id, Find(m.subs, id)); }
  }

  lemma PollKeeps(m: Mon, other: nat, n: nat, id: nat)
    requires MonInv(m)
    ensures var m' := Poll(m, other, n);
      && MonInv(m') && m'.subids == m.subids
      && (Live(m, id) ==> Carries(m, m', id, SubOf(m, id).inbox[if other == id then |Polled(m, id, n)| else 0..]))
      && (!Live(m, id) ==> !Live(m', id))
  {
    var m' := Poll(m, other, n);
    if Live(m, id) { FindAt(m'.subs, id, Find(m.subs, id)); }
  }

  /** What waits for `id` after a step. */
  function Waiting(m: Mon, id: nat, a: Action): seq<nat>
    requires Live(m, id)
  {
    var sub := SubOf(m, id);
    if a.Notifying? then Fill(sub.inbox, sub.group, a.wrote)
    else sub.inbox[if a.Polling? && a.id == id then |Polled(m, id, a.n)| else 0..]
  }

  /** Every step keeps the invariant, and a live subscriber other than the one the
      step removes keeps its group and loses nothing. */
  lemma StepKeeps(m: Mon, a: Action, id: nat)
    requires MonInv(m) && m.subids + 1 < U64
    ensures MonInv(Step(m, a)) && m.subids <= Step(m, a).subids <= m.subids + 1
    ensures Live(m, id) && a != Unsubscribing(id) ==> Carries(m, Step(m, a), id, Waiting(m, id, a))
    ensures id <= m.subids && (!Live(m, id) || a == Unsubscribing(id)) ==> !Live(Step(m, a), id)
  {
    hide MonInv, Carries, Subscribe, Unsubscribe, Notify, Poll;
    match a {
      case Subscribing(group) => SubscribeKeeps(m, group, id);
      case Unsubscribing(other) => UnsubscribeKeeps(m, other, id);
      case Notifying(wrote) => NotifyKeeps(m, wrote, id);
      case Polling(other, n) => PollKeeps(m, other, n, id);
    }
  }

  /** One step moves keys from due to waiting to polled, dropping some only when
      more is due than fits. */
  lemma StepBalances(m: Mon, id: nat, a: Action)
    requires MonInv(m) && Live(m, id)
    ensures var sub := SubOf(m, id);
      var now := if a.Notifying? then Matching(sub.group, a.wrote) else [];
      var out := if a.Polling? && a.id == id then Polled(m, id, a.n) else [];
      var fits := a.Notifying? ==> |sub.inbox| + |now| <= DEFAULT_QUEUE_SIZE;
      && |out + Waiting(m, id, a)| <= |sub.inbox + now|
      && (fits ==> out + Waiting(m, id, a) == sub.inbox + now)
      && (!fits ==> |out + Waiting(m, id, a)| < |sub.inbox + now|)
  {
    var sub := SubOf(m, id);
    if a.Notifying? {
      FillKeepsOldest(sub.inbox, sub.group, a.wrote);
    }
  }

  lemma Balances(inbox: seq<nat>, now: seq<nat>, due: seq<nat>, out: seq<nat>, waiting: seq<nat>, polled: seq<nat>, last: seq<nat>)
    requires |out + waiting| <= |inbox + now| && |polled + last| <= |waiting + due|
    ensures |(out + polled) + last| <= |inbox + (now + due)|
    ensures out + waiting == inbox + now && polled + last == waiting + due ==>
              (out + polled) + last == inbox + (now + due)
    ensures |(out + polled) + last| == |inbox + (now + due)| ==>
              |out + waiting| == |inbox + now| && |polled + last| == |waiting + due|
  {
    if out + waiting == inbox + now && polled + last == waiting + due {
      calc {
        (out + polled) + last;
        out + (polled + last);
        out + (waiting + due);
        (out + waiting) + due;
        (inbox + now) + due;
        inbox + (now + due);
      }
    }
  }

  /** A live subscriber's account balances: what it was handed plus what waits is
      what waited plus what was reported, exactly when its inbox never filled. */
  lemma {:induction false} AccountBalances(m: Mon, id: nat, actions: seq<Action>)
    requires MonInv(m) && m.subids + |actions| < U64
    requires Live(m, id) && forall i :: 0 <= i < |actions| ==> actions[i] != Unsubscribing(id)
    ensures Live(Run(m, actions), id) && SubOf(Run(m, actions), id).group == SubOf(m, id).group
    ensures var got := AllPolled(m, id, actions) + SubOf(Run(m, actions), id).inbox;
      var owed := SubOf(m, id).inbox + AllDue(SubOf(m, id).group, actions);
      && |got| <= |owed|
      && (NeverFull(m, id, actions) ==> got == owed)
      && (!NeverFull(m, id, actions) ==> |got| < |owed|)
    decreases |actions|
  {
    hide MonInv, SubOf, Polled, Waiting, Step, Find;
    if actions != [] {
      var a, rest := actions[0], actions[1..];
      var m1 := Step(m, a);
      StepKeeps(m, a, id);
      AccountBalances(m1, id, rest);
      StepBalances(m, id, a);
      var sub := SubOf(m, id);
      Balances(sub.inbox, if a.Notifying? then Matching(sub.group, a.wrote) else [], AllDue(sub.group, rest),
               if a.Polling? && a.id == id then Polled(m, id, a.n) else [], Waiting(m, id, a),
               AllPolled(m1, id, rest), SubOf(Run(m, actions), id).inbox);
    }
  }

  lemma {:induction false} RunSplits(m: Mon, a: seq<Action>, b: seq<Action>)
    ensures Run(m, a + b) == Run(Run(m, a), b)
    decreases |a|
  {
    if a == [] {
      assert a + b == b;
    } else {
      assert (a + b)[1..] == a[1..] + b;
      RunSplits(Step(m, a[0]), a[1..], b);
    }
  }

  lemma {:induction false} RunKeepsInv(m: Mon, actions: seq<Action>, id: nat)
    requires MonInv(m) && m.subids + |actions| < U64
    ensures MonInv(Run(m, actions)) && Run(m, actions).subids <= m.subids + |actions|
    ensures id <= m.subids && !Live(m, id) ==> !Live(Run(m, actions), id)
    decreases |actions|
  {
    if actions != [] {
      StepKeeps(m, actions[0], id);
      RunKeepsInv(Step(m, actions[0]), actions[1..], id);
    }
  }

  /** Delivery, over every run: a successful subscriber that has not unsubscribed was
      handed, or has waiting, exactly the matching keys reported since - in order,
      whatever other subscribers did - if and only if its inbox never filled. */
  lemma SubscribersGetTheirNotes(before: seq<Action>, group: seq<Filter>, after: seq<Action>)
    requires |before| + 1 + |after| < U64
    requires var id := Subscribe(Run(NOBODY, before), group).1;
      id != 0 && forall i :: 0 <= i < |after| ==> after[i] != Unsubscribing(id)
    ensures var m, id := Subscribe(Run(NOBODY, before), group).0, Subscribe(Run(NOBODY, before), group).1;
      && Run(NOBODY, before + [Subscribing(group)] + after) == Run(m, after)
      && Live(Run(m, after), id)
      && (AllPolled(m, id, after) + SubOf(Run(m, after), id).inbox == AllDue(group, after)
          <==> NeverFull(m, id, after))
  {
    var m0 := Run(NOBODY, before);
    RunKeepsInv(NOBODY, before, 0);
    var m, id := Subscribe(m0, group).0, Subscribe(m0, group).1;
    StepKeeps(m0, Subscribing(group), id);
    FindAt(m.subs, id, |m0.subs|);
    assert SubOf(m, id) == Subscription(id, group, []);
    AccountBalances(m, id, after);
    assert [] + AllDue(group, after) == AllDue(group, after);
    RunSplits(NOBODY, before + [Subscribing(group)], after);
    RunSplits(NOBODY, before, [Subscribing(group)]);
    assert Run(m0, [Subscribing(group)]) == m by { assert [Subscribing(group)][1..] == []; }
  }

  /** Once unsubscribed, an id is never live again and polls nothing. */
  lemma UnsubscribedForGood(m: Mon, id: nat, actions: seq<Action>)
    requires MonInv(m) && m.subids + 1 + |actions| < U64 && id <= m.subids
    ensures !Live(Run(Unsubscribe(m, id), actions), id)
    ensures forall n :: Polled(Run(Unsubscribe(m, id), actions), id, n) == []
  {
    StepKeeps(m, Unsubscribing(id), id);
    RunKeepsInv(Unsubscribe(m, id), actions, id);
  }
}
