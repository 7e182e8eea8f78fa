/** Lexicographic order on strings of numbers, the order `mdb_cmp_memn` gives
    to byte strings: the first difference decides, a proper prefix comes first. */
module LexOrder {

  predicate LexLess(a: seq<nat>, b: seq<nat>)
  {
    if b == [] then false
    else if a == [] then true
    else a[0] < b[0] || (a[0] == b[0] && LexLess(a[1..], b[1..]))
  }

  lemma {:induction false} LexIrreflexive(a: seq<nat>)
    ensures !LexLess(a, a)
  {
    if a != [] {
      LexIrreflexive(a[1..]);
    }
  }

  lemma {:induction false} LexTransitive(a: seq<nat>, b: seq<nat>, c: seq<nat>)
    requires LexLess(a, b) && LexLess(b, c)
    ensures LexLess(a, c)
  {
    if a != [] && a[0] == b[0] == c[0] {
      LexTransitive(a[1..], b[1..], c[1..]);
    }
  }

  lemma {:induction false} LexTotal(a: seq<nat>, b: seq<nat>)
    ensures LexLess(a, b) || a == b || LexLess(b, a)
  {
    if a != [] && b != [] && a[0] == b[0] {
      LexTotal(a[1..], b[1..]);
      assert a == [a[0]] + a[1..] && b == [b[0]] + b[1..];
    }
  }

  lemma LexAsymmetric(a: seq<nat>, b: seq<nat>)
    requires LexLess(a, b)
    ensures !LexLess(b, a) && a != b
  {
    LexIrreflexive(a);
    if LexLess(b, a) {
      LexTransitive(a, b, a);
    }
  }

  lemma LexSingle(a: nat, b: nat)
    ensures LexLess([a], [b]) <==> a < b
  {
  }

  /** `mdb_cmp_memn`: memcmp over the shared length, then the lengths. */
  method CompareMemn(a: seq<nat>, b: seq<nat>) returns (cmp: int)
    ensures cmp < 0 <==> LexLess(a, b)
    ensures cmp > 0 <==> LexLess(b, a)
    ensures cmp == 0 <==> a == b
  {
    var len := if |a| > |b| then |b| else |a|;
    var i := 0;
    while i < len && a[i] == b[i]
      invariant 0 <= i <= len
      invariant a[..i] == b[..i]
      invariant LexLess(a, b) <==> LexLess(a[i..], b[i..])
      invariant LexLess(b, a) <==> LexLess(b[i..], a[i..])
    {
      i := i + 1;
    }
    if i < len {
      cmp := if a[i] < b[i] then -1 else 1;
    } else {
      cmp := if |a| < |b| then -1 else if |a| > |b| then 1 else 0;
      if |a| == |b| {
        assert a[..i] == a && b[..i] == b;
        LexIrreflexive(a);
      }
    }
  }
}

/** An LMDB table opened with MDB_DUPSORT: a strictly increasing sequence of
    (group, timestamp, value) entries. A cursor is a position in it. */
module Tables {
  import opened LexOrder

  // The group is what an index clusters by (a kind, a pubkey, a pubkey and a
  // kind, a tag and its value); `key` is the 64-bit value stored under the key.
  datatype Entry = Entry(group: seq<nat>, ts: nat, key: nat)

  datatype Option<+T> = None | Some(value: T)

  predicate KeyLess(g: seq<nat>, ts: nat, h: seq<nat>, us: nat)
  {
    LexLess(g, h) || (g == h && ts < us)
  }

  predicate Less(a: Entry, b: Entry)
  {
    KeyLess(a.group, a.ts, b.group, b.ts) || (a.group == b.group && a.ts == b.ts && a.key < b.key)
  }

  ghost predicate Sorted(t: seq<Entry>)
  {
    forall i, j :: 0 <= i < j < |t| ==> Less(t[i], t[j])
  }

  lemma KeyLessTransitive(g: seq<nat>, ts: nat, h: seq<nat>, us: nat, k: seq<nat>, vs: nat)
    requires KeyLess(g, ts, h, us) && KeyLess(h, us, k, vs)
    ensures KeyLess(g, ts, k, vs)
  {
    if LexLess(g, h) && LexLess(h, k) {
      LexTransitive(g, h, k);
    }
  }

  lemma LessTransitive(a: Entry, b: Entry, c: Entry)
    requires Less(a, b) && Less(b, c)
    ensures Less(a, c)
  {
    if KeyLess(a.group, a.ts, b.group, b.ts) && KeyLess(b.group, b.ts, c.group, c.ts) {
      KeyLessTransitive(a.group, a.ts, b.group, b.ts, c.group, c.ts);
    }
  }

  lemma LessTotal(a: Entry, b: Entry)
    ensures Less(a, b) || a == b || Less(b, a)
    ensures !(Less(a, b) && Less(b, a)) && (Less(a, b) ==> a != b)
  {
    LexTotal(a.group, b.group);
    LexIrreflexive(a.group);
    if LexLess(a.group, b.group) { LexAsymmetric(a.group, b.group); }
    if LexLess(b.group, a.group) { LexAsymmetric(b.group, a.group); }
  }

  /** MDB_SET_RANGE: the first position whose key is not below (g, ts); |t| when
      there is none. */
  function SetRange(t: seq<Entry>, g: seq<nat>, ts: nat): (p: nat)
    ensures p <= |t|
    ensures forall i :: 0 <= i < p ==> KeyLess(t[i].group, t[i].ts, g, ts)
    ensures p < |t| ==> !KeyLess(t[p].group, t[p].ts, g, ts)
  {
    if t == [] || !KeyLess(t[0].group, t[0].ts, g, ts) then 0
    else 1 + SetRange(t[1..], g, ts)
  }

  lemma SetRangeSplits(t: seq<Entry>, g: seq<nat>, ts: nat, i: nat)
    requires Sorted(t) && i < |t|
    ensures i < SetRange(t, g, ts) <==> KeyLess(t[i].group, t[i].ts, g, ts)
  {
    var p := SetRange(t, g, ts);
    if p <= i && KeyLess(t[i].group, t[i].ts, g, ts) && p < i {
      assert Less(t[p], t[i]);
      if KeyLess(t[p].group, t[p].ts, t[i].group, t[i].ts) {
        KeyLessTransitive(t[p].group, t[p].ts, t[i].group, t[i].ts, g, ts);
      }
    }
  }

  /** `ndb_cursor_start`: the newest entry strictly below (g, ts). */
  function CursorStart(t: seq<Entry>, g: seq<nat>, ts: nat): (p: Option<nat>)
    ensures p.Some? ==> p.value < |t| && p.value + 1 == SetRange(t, g, ts)
    ensures p.None? ==> SetRange(t, g, ts) == 0
  {
    var r := SetRange(t, g, ts);
    if r == |t| then            // MDB_SET_RANGE failed: MDB_LAST
      if |t| == 0 then None else Some(|t| - 1)
    else                        // otherwise step back: MDB_PREV
      if r == 0 then None else Some(r - 1)
  }

  /** The entries of one group form a contiguous run of the table. */
  lemma GroupContiguous(t: seq<Entry>, i: nat, j: nat, k: nat)
    requires Sorted(t) && i <= j <= k < |t|
    requires t[i].group == t[k].group
    ensures t[j].group == t[i].group
    ensures t[i].ts <= t[j].ts <= t[k].ts
  {
    if i < j < k {
      assert Less(t[i], t[j]) && Less(t[j], t[k]);
      if LexLess(t[i].group, t[j].group) {
        LexAsymmetric(t[i].group, t[j].group);
      }
    } else if i < k {
      assert Less(t[i], t[k]);
      LexIrreflexive(t[i].group);
    }
  }

  lemma InGroupDescends(t: seq<Entry>, i: nat, k: nat)
    requires Sorted(t) && i < k < |t|
    requires t[i].group == t[k].group
    ensures t[i].ts < t[k].ts || (t[i].ts == t[k].ts && t[i].key < t[k].key)
  {
    assert Less(t[i], t[k]);
    LexIrreflexive(t[i].group);
  }

  /** A reverse scan of a group that has entries below `ts` starts inside it. */
  lemma CursorStartsInGroup(t: seq<Entry>, g: seq<nat>, ts: nat, j: nat)
    requires Sorted(t) && j < |t| && t[j].group == g && t[j].ts < ts
    ensures CursorStart(t, g, ts).Some? && j <= CursorStart(t, g, ts).value
    ensures t[CursorStart(t, g, ts).value].group == g
  {
    SetRangeSplits(t, g, ts, j);
    var p := CursorStart(t, g, ts).value;
    SetRangeSplits(t, g, ts, p);
    if j < p {
      assert Less(t[j], t[p]);
      if LexLess(g, t[p].group) { LexAsymmetric(g, t[p].group); }
    }
  }

  ghost function Elems(t: seq<Entry>): set<Entry> { set e | e in t }

  /** `mdb_put` into a DUPSORT table: an entry already there changes nothing. */
  function Put(t: seq<Entry>, e: Entry): (t': seq<Entry>)
  {
    if t == [] then [e]
    else if t[0] == e then t
    else if Less(e, t[0]) then [e] + t
    else [t[0]] + Put(t[1..], e)
  }

  lemma {:induction false} PutInserts(t: seq<Entry>, e: Entry)
    requires Sorted(t)
    ensures Sorted(Put(t, e))
    ensures Elems(Put(t, e)) == Elems(t) + {e}
  {
    if t == [] || t[0] == e {
    } else if Less(e, t[0]) {
      forall i | 0 <= i < |t| ensures Less(e, t[i]) {
        if i > 0 { LessTransitive(e, t[0], t[i]); }
      }
      assert Put(t, e) == [e] + t;
    } else {
      PutInserts(t[1..], e);
      LessTotal(e, t[0]);
      SortedCons(t, Put(t[1..], e), e);
    }
  }

  lemma SortedCons(t: seq<Entry>, r: seq<Entry>, e: Entry)
    requires Sorted(t) && t != [] && Less(t[0], e)
    requires Sorted(r) && Elems(r) == Elems(t[1..]) + {e}
    ensures Sorted([t[0]] + r) && Elems([t[0]] + r) == Elems(t) + {e}
  {
    forall i | 0 <= i < |r| ensures Less(t[0], r[i]) {
      assert r[i] in Elems(r);
      if r[i] != e {
        var k :| 0 <= k < |t[1..]| && t[1..][k] == r[i];
        assert Less(t[0], t[k + 1]);
      }
    }
    ElemsCons(t[0], r);
    ElemsCons(t[0], t[1..]);
    assert t == [t[0]] + t[1..];
  }

  lemma ElemsCons(x: Entry, r: seq<Entry>)
    ensures Elems([x] + r) == {x} + Elems(r)
  {
  }

  lemma SortedDistinct(t: seq<Entry>, i: nat, j: nat)
    requires Sorted(t) && i < |t| && j < |t|
    ensures t[i] == t[j] ==> i == j
  {
    LessTotal(t[i], t[j]);
  }

  /** Two strictly sorted tables with the same entries are the same table. */
  lemma {:induction false} SortedUnique(s: seq<Entry>, t: seq<Entry>)
    requires Sorted(s) && Sorted(t) && Elems(s) == Elems(t)
    ensures s == t
  {
    assert s != [] ==> s[0] in Elems(s);
    assert t != [] ==> t[0] in Elems(t);
    if s != [] && t != [] {
      var i :| 0 <= i < |t| && t[i] == s[0];
      var j :| 0 <= j < |s| && s[j] == t[0];
      LessTotal(s[0], t[0]);
      assert s[0] == t[0];
      assert forall k :: 1 <= k < |s| ==> Less(s[0], s[k]);
      assert forall k :: 1 <= k < |t| ==> Less(t[0], t[k]);
      LessTotal(s[0], s[0]);
      forall x ensures x in Elems(s[1..]) <==> x in Elems(s) && x != s[0] {
        assert s == [s[0]] + s[1..];
      }
      forall x ensures x in Elems(t[1..]) <==> x in Elems(t) && x != t[0] {
        assert t == [t[0]] + t[1..];
      }
      SortedUnique(s[1..], t[1..]);
      assert s == [s[0]] + s[1..] && t == [t[0]] + t[1..];
    }
  }
}
