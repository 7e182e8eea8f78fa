/** Metadata rows (src/metadata.c): typed counters of one note, sorted by key. */
module MetadataRows {
  import opened Tables

  const COUNTS: nat := 100
  const REACTION: nat := 200

  // Zaps and whatever else may come.
  type OtherKind = k: nat | k != 100 && k != 200 witness 0

  // What `compare_entries` orders by; only reactions have a payload that matters.
  datatype SortKey = SortKey(kind: nat, reaction: nat)

  datatype Entry =
    | Counts(total: nat, reposts: nat, direct: nat, quotes: nat, thread: nat)
    | Reaction(reaction: nat, count: nat)
    | Other(kind: OtherKind, aux: nat, payload: nat)
  {
    function Key(): SortKey
    {
      match this
      case Counts(_, _, _, _, _) => SortKey(COUNTS, 0)
      case Reaction(r, _) => SortKey(REACTION, r)
      case Other(k, _, _) => SortKey(k, 0)
    }
  }

  type Row = seq<Entry>

  /** `compare_entries` */
  predicate Before(a: SortKey, b: SortKey)
  {
    a.kind < b.kind || (a.kind == b.kind == REACTION && a.reaction < b.reaction)
  }

  predicate CountsKey(k: SortKey)
  {
    k.kind != REACTION ==> k.reaction == 0
  }

  /** Sorted by (type, reaction), one entry per key. */
  ghost predicate Ordered(row: Row)
  {
    && (forall i :: 0 <= i < |row| ==> CountsKey(row[i].Key()))
    && forall i, j :: 0 <= i < j < |row| ==> Before(row[i].Key(), row[j].Key())
  }

  /** `ndb_note_meta_find_entry`: a position, or |row|. */
  function Find(row: Row, k: SortKey): (i: nat)
    ensures i <= |row|
    ensures i < |row| ==> row[i].Key() == k
    ensures forall j :: 0 <= j < i ==> row[j].Key() != k
  {
    if row == [] || row[0].Key() == k then 0 else 1 + Find(row[1..], k)
  }

  function Lookup(row: Row, k: SortKey): Option<Entry>
  {
    if Find(row, k) < |row| then Some(row[Find(row, k)]) else None
  }

  /** Put an entry in its place, over the one with its key if there is one. */
  function Upsert(row: Row, e: Entry): Row
  {
    if row == [] || Before(e.Key(), row[0].Key()) then [e] + row
    else if row[0].Key() == e.Key() then [e] + row[1..]
    else [row[0]] + Upsert(row[1..], e)
  }

  lemma BeforeTotal(a: SortKey, b: SortKey)
    requires CountsKey(a) && CountsKey(b)
    ensures Before(a, b) || a == b || Before(b, a)
    ensures !(Before(a, b) && Before(b, a)) && (Before(a, b) ==> a != b)
  {
  }

  lemma FindAt(row: Row, i: nat)
    requires Ordered(row) && i < |row|
    ensures Find(row, row[i].Key()) == i
  {
    var f := Find(row, row[i].Key());
    OrderedAt(row, f, i);
    BeforeTotal(row[i].Key(), row[i].Key());
  }

  lemma OrderedAt(row: Row, i: nat, j: nat)
    requires Ordered(row) && j < |row|
    ensures i < j ==> Before(row[i].Key(), row[j].Key())
  {
  }

  lemma {:induction false} UpsertOrdered(row: Row, e: Entry)
    requires Ordered(row) && CountsKey(e.Key())
    ensures Ordered(Upsert(row, e))
    ensures forall x :: x in Upsert(row, e) ==> x == e || x in row
    decreases |row|
  {
    if row != [] {
      BeforeTotal(e.Key(), row[0].Key());
      if Before(row[0].Key(), e.Key()) {
        UpsertOrdered(row[1..], e);
        OrderedCons(row[0], row[1..], Upsert(row[1..], e), e);
      } else if Before(e.Key(), row[0].Key()) {
        OrderedFirst(e, row);
      }
    }
  }

  lemma OrderedCons(first: Entry, rest: Row, r: Row, e: Entry)
    requires Ordered([first] + rest) && Ordered(r) && Before(first.Key(), e.Key())
    requires forall x :: x in r ==> x == e || x in rest
    ensures Ordered([first] + r)
  {
    forall i | 0 <= i < |r| ensures Before(first.Key(), r[i].Key()) {
      assert r[i] in r;
      if r[i] != e {
        var j :| 0 <= j < |rest| && rest[j] == r[i];
        assert ([first] + rest)[j + 1] == r[i] && ([first] + rest)[0] == first;
      }
    }
    assert CountsKey(([first] + rest)[0].Key());
  }

  lemma OrderedFirst(e: Entry, row: Row)
    requires Ordered(row) && row != [] && CountsKey(e.Key()) && Before(e.Key(), row[0].Key())
    ensures Ordered([e] + row)
  {
    forall i | 0 <= i < |row| ensures Before(e.Key(), row[i].Key()) {
      assert i > 0 ==> Before(row[0].Key(), row[i].Key());
    }
  }

  /** An upsert is a map update: it changes the entry under exactly one key. */
  lemma {:induction false} UpsertUpdates(row: Row, e: Entry, k: SortKey)
    requires Ordered(row) && CountsKey(e.Key())
    ensures Lookup(Upsert(row, e), k) == if k == e.Key() then Some(e) else Lookup(row, k)
    decreases |row|
  {
    if row == [] {
    } else if Before(e.Key(), row[0].Key()) {
      if k == e.Key() { NotFound(row, e.Key()); }
      LookupCons(e, row, k);
    } else if row[0].Key() == e.Key() {
      LookupCons(e, row[1..], k);
      LookupCons(row[0], row[1..], k);
      assert row == [row[0]] + row[1..];
    } else {
      UpsertUpdates(row[1..], e, k);
      LookupCons(row[0], Upsert(row[1..], e), k);
      LookupCons(row[0], row[1..], k);
      assert row == [row[0]] + row[1..];
    }
  }

  lemma LookupCons(e: Entry, row: Row, k: SortKey)
    ensures Lookup([e] + row, k) == if e.Key() == k then Some(e) else Lookup(row, k)
  {
    assert ([e] + row)[1..] == row;
  }

  lemma NotFound(row: Row, k: SortKey)
    requires Ordered(row) && row != [] && CountsKey(k) && Before(k, row[0].Key())
    ensures Lookup(row, k) == None
  {
    var i := Find(row, k);
    if i < |row| {
      OrderedAt(row, 0, i);
    }
  }

  // ---- clone, add, sort ----

  lemma {:induction false} UpsertInPlace(row: Row, at: nat, e: Entry)
    requires Ordered(row) && at < |row| && row[at].Key() == e.Key()
    ensures Upsert(row, e) == row[at := e]
    decreases |row|
  {
    OrderedAt(row, 0, at);
    BeforeTotal(row[0].Key(), e.Key());
    if at > 0 {
      UpsertInPlace(row[1..], at - 1, e);
      assert row == [row[0]] + row[1..];
    }
  }

  /** Adding a blank entry and then setting it is one upsert. */
  lemma {:induction false} UpsertTwice(row: Row, blank: Entry, e: Entry)
    requires Ordered(row) && blank.Key() == e.Key()
    ensures Upsert(Upsert(row, blank), e) == Upsert(row, e)
    decreases |row|
  {
    assert !Before(e.Key(), e.Key());
    if row == [] || Before(e.Key(), row[0].Key()) {
      assert ([blank] + row)[1..] == row;
    } else if row[0].Key() == e.Key() {
      assert ([blank] + row[1..])[1..] == row[1..];
    } else {
      UpsertTwice(row[1..], blank, e);
      assert ([row[0]] + Upsert(row[1..], blank))[1..] == Upsert(row[1..], blank);
    }
  }

  lemma {:induction false} UpsertAdds(row: Row, e: Entry)
    requires Find(row, e.Key()) == |row|
    ensures multiset(Upsert(row, e)) == multiset(row) + multiset{e}
    decreases |row|
  {
    if row != [] && !Before(e.Key(), row[0].Key()) {
      UpsertAdds(row[1..], e);
      assert row == [row[0]] + row[1..];
    }
  }

  ghost predicate DistinctKeys(row: Row)
  {
    && (forall i :: 0 <= i < |row| ==> CountsKey(row[i].Key()))
    && forall i, j :: 0 <= i < j < |row| ==> row[i].Key() != row[j].Key()
  }

  /** There is only one way to sort entries with distinct keys. */
  lemma {:induction false} SortUnique(r: Row, s: Row)
    requires Ordered(r) && Ordered(s) && multiset(r) == multiset(s)
    ensures r == s
    decreases |r|
  {
    assert |r| == |multiset(r)| && |s| == |multiset(s)|;
    if r != [] {
      hide Ordered;
      SameFirst(r, s);
      OrderedTail(r);
      OrderedTail(s);
      SortUnique(r[1..], s[1..]);
    }
  }

  lemma OrderedTail(row: Row)
    requires Ordered(row) && row != []
    ensures Ordered(row[1..]) && row == [row[0]] + row[1..]
    ensures multiset(row[1..]) == multiset(row) - multiset{row[0]}
  {
    assert row == [row[0]] + row[1..];
  }

  lemma SameFirst(r: Row, s: Row)
    requires Ordered(r) && Ordered(s) && multiset(r) == multiset(s) && r != [] && s != []
    ensures r[0] == s[0]
  {
    assert r[0] in multiset(s) && s[0] in multiset(r);
    var i :| 0 <= i < |s| && s[i] == r[0];
    var j :| 0 <= j < |r| && r[j] == s[0];
    OrderedAt(s, 0, i);
    OrderedAt(r, 0, j);
    BeforeTotal(r[0].Key(), s[0].Key());
  }

  function Blank(k: SortKey): (e: Entry)
    requires CountsKey(k)
    ensures e.Key() == k
  {
    if k.kind == COUNTS then Counts(0, 0, 0, 0, 0)
    else if k.kind == REACTION then Reaction(k.reaction, 0)
    else Other(k.kind, 0, 0)
  }

  datatype CloneResult = CloneFailed | NewEntry | ExistingEntry

  function RowOf(meta: Option<Row>): Row
  {
    if meta.None? then [] else meta.value
  }

  /** A metadata row under construction: the entries behind the header in a scratch
      buffer, and the header's count. */
  class Builder {
    const buf: array<Entry>
    var count: nat

    ghost predicate Valid()
      reads this
    {
      count <= buf.Length
    }

    function Contents(): Row
      requires Valid()
      reads this, buf
    {
      buf[..count]
    }

    constructor (buffer: array<Entry>)
      ensures Valid() && buf == buffer && Contents() == []
    {
      buf := buffer;
      count := 0;
    }

    method CopyIn(row: Row)
      requires |row| <= buf.Length
      modifies this, buf
      ensures Valid() && Contents() == row
    {
      forall i | 0 <= i < |row| {
        buf[i] := row[i];
      }
      count := |row|;
    }

    /** `ndb_note_meta_find_entry_impl` */
    method FindEntry(k: SortKey) returns (i: nat)
      requires Valid()
      ensures i == Find(Contents(), k)
    {
      i := 0;
      while i < count
        invariant 0 <= i <= count
        invariant Find(Contents(), k) == i + Find(Contents()[i..], k)
      {
        assert Contents()[i..][0] == buf[i] && Contents()[i..][1..] == Contents()[i + 1..];
        if buf[i].Key() == k {
          return;
        }
        i := i + 1;
      }
    }

    /** `ndb_note_meta_build`, with `qsort` for its contract: a sorted permutation. */
    method Build()
      requires Valid() && DistinctKeys(Contents())
      modifies buf
      ensures Valid() && Ordered(Contents())
      ensures multiset(Contents()) == multiset(old(Contents()))
    {
      ghost var was := Contents();
      var sorted: Row := [];
      var i := 0;
      while i < count
        invariant 0 <= i <= count && Contents() == was
        invariant Ordered(sorted) && multiset(sorted) == multiset(was[..i])
      {
        assert was[..i + 1] == was[..i] + [was[i]];
        NewKey(sorted, was, i);
        UpsertAdds(sorted, was[i]);
        UpsertOrdered(sorted, was[i]);
        sorted := Upsert(sorted, buf[i]);
        i := i + 1;
      }
      assert was[..i] == was;
      assert |multiset(sorted)| == |multiset(was)|;
      forall k | 0 <= k < count {
        buf[k] := sorted[k];
      }
      assert Contents() == sorted;
    }

    /** `ndb_note_meta_clone_with_entry`: copy a row into the buffer with an entry
        under `k` in it, and say where. The buffer must hold at least one entry. */
    method CloneWithEntry(meta: Option<Row>, k: SortKey) returns (r: CloneResult, at: nat)
      requires Valid() && buf.Length > 0 && CountsKey(k) && Ordered(RowOf(meta))
      modifies this, buf
      ensures Valid()
      ensures r == if |RowOf(meta)| > buf.Length then CloneFailed
                   else if Find(RowOf(meta), k) < |RowOf(meta)| then ExistingEntry
                   else if |RowOf(meta)| == buf.Length then CloneFailed else NewEntry
      ensures r.ExistingEntry? ==> Contents() == RowOf(meta)
      ensures r.NewEntry? ==> Contents() == Upsert(RowOf(meta), Blank(k))
      ensures !r.CloneFailed? ==> at < count && Contents()[at].Key() == k
    {
      at := 0;
      var row := RowOf(meta);
      if |row| > buf.Length {
        return CloneFailed, 0;
      }
      CopyIn(row);
      at := FindEntry(k);
      if at < count {
        return ExistingEntry, at;
      }
      if |row| + 1 > buf.Length {
        return CloneFailed, 0;
      }
      buf[count] := Blank(k);
      count := count + 1;
      assert Contents() == row + [Blank(k)];
      AppendedDistinct(row, Blank(k));
      Build();
      UpsertAdds(row, Blank(k));
      UpsertOrdered(row, Blank(k));
      SortUnique(Contents(), Upsert(row, Blank(k)));
      UpsertUpdates(row, Blank(k), k);
      at := FindEntry(k);
      r := NewEntry;
    }
  }

  lemma NewKey(sorted: Row, was: Row, i: nat)
    requires DistinctKeys(was) && i < |was| && multiset(sorted) == multiset(was[..i])
    ensures Find(sorted, was[i].Key()) == |sorted|
  {
    forall j | 0 <= j < |sorted| ensures sorted[j].Key() != was[i].Key() {
      assert sorted[j] in multiset(was[..i]);
      var m :| 0 <= m < |was[..i]| && was[..i][m] == sorted[j];
    }
  }

  lemma AppendedDistinct(row: Row, e: Entry)
    requires Ordered(row) && CountsKey(e.Key()) && Find(row, e.Key()) == |row|
    ensures DistinctKeys(row + [e])
  {
    forall i, j | 0 <= i < j < |row| + 1 ensures (row + [e])[i].Key() != (row + [e])[j].Key() {
      if j < |row| {
        OrderedAt(row, i, j);
        BeforeTotal(row[i].Key(), row[j].Key());
      }
    }
  }
}
