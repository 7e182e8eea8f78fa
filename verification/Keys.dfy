/** Packed index keys and the comparators LMDB orders them by (src/nostrdb.c): each
    comparator is the lexicographic order on the decoded fields. */
module Keys {
  import opened Basics
  import opened LexOrder
  import opened Tables
  import opened Notes
  import opened Varints
  import Blocks
  import ContentScan
  import ContentParser

  // ---- the order on fields ----

  /** First a string, then a list of numbers. */
  predicate FieldsLess(g: Bytes, xs: seq<nat>, h: Bytes, ys: seq<nat>)
  {
    LexLess(g, h) || (g == h && LexLess(xs, ys))
  }

  /** The result of a comparison, by sign. */
  ghost predicate Compares(cmp: int, g: Bytes, xs: seq<nat>, h: Bytes, ys: seq<nat>)
  {
    && (cmp < 0 <==> FieldsLess(g, xs, h, ys))
    && (cmp > 0 <==> FieldsLess(h, ys, g, xs))
    && (cmp == 0 <==> g == h && xs == ys)
  }

  lemma FieldsTransitive(f: Bytes, xs: seq<nat>, g: Bytes, ys: seq<nat>, h: Bytes, zs: seq<nat>)
    requires FieldsLess(f, xs, g, ys) && FieldsLess(g, ys, h, zs)
    ensures FieldsLess(f, xs, h, zs)
  {
    if LexLess(f, g) && LexLess(g, h) {
      LexTransitive(f, g, h);
    } else if f == g == h {
      LexTransitive(xs, ys, zs);
    }
  }

  lemma FieldsTotal(g: Bytes, xs: seq<nat>, h: Bytes, ys: seq<nat>)
    ensures FieldsLess(g, xs, h, ys) || (g == h && xs == ys) || FieldsLess(h, ys, g, xs)
    ensures !(FieldsLess(g, xs, h, ys) && FieldsLess(h, ys, g, xs)) && !FieldsLess(g, xs, g, xs)
  {
    LexTotal(g, h);
    LexTotal(xs, ys);
    LexIrreflexive(g);
    LexIrreflexive(xs);
    if LexLess(g, h) { LexAsymmetric(g, h); }
    if LexLess(h, g) { LexAsymmetric(h, g); }
    if LexLess(xs, ys) { LexAsymmetric(xs, ys); }
    if LexLess(ys, xs) { LexAsymmetric(ys, xs); }
  }

  /** A comparison decided by the first number, or left to the rest. */
  lemma NextField(g: Bytes, x: nat, xs: seq<nat>, y: nat, ys: seq<nat>)
    ensures x < y ==> Compares(-1, g, [x] + xs, g, [y] + ys)
    ensures x > y ==> Compares(1, g, [x] + xs, g, [y] + ys)
    ensures forall cmp :: x == y && Compares(cmp, g, xs, g, ys) ==> Compares(cmp, g, [x] + xs, g, [y] + ys)
  {
    LexIrreflexive(g);
    assert ([x] + xs)[1..] == xs && ([y] + ys)[1..] == ys;
    assert x == y && [x] + xs == [y] + ys ==> xs == ys;
  }

  /** The chain of comparisons that every comparator ends in. */
  method CompareNumbers(ghost g: Bytes, xs: seq<nat>, ys: seq<nat>) returns (cmp: int)
    requires |xs| == |ys|
    ensures Compares(cmp, g, xs, g, ys)
  {
    hide Compares, LexLess;
    var i := 0;
    cmp := 0;
    Undecided(g, xs[|xs|..], ys[|ys|..]);
    while i < |xs| && xs[i] == ys[i]
      invariant 0 <= i <= |xs|
      invariant forall c :: Compares(c, g, xs[i..], g, ys[i..]) ==> Compares(c, g, xs, g, ys)
    {
      NextField(g, xs[i], xs[i + 1..], ys[i], ys[i + 1..]);
      assert xs[i..] == [xs[i]] + xs[i + 1..] && ys[i..] == [ys[i]] + ys[i + 1..];
      i := i + 1;
    }
    if i < |xs| {
      NextField(g, xs[i], xs[i + 1..], ys[i], ys[i + 1..]);
      assert xs[i..] == [xs[i]] + xs[i + 1..] && ys[i..] == [ys[i]] + ys[i + 1..];
      cmp := if xs[i] < ys[i] then -1 else 1;
    }
  }

  lemma Undecided(g: Bytes, xs: seq<nat>, ys: seq<nat>)
    requires xs == [] && ys == []
    ensures Compares(0, g, xs, g, ys)
  {
    LexIrreflexive(g);
  }

  /** A string that decides. */
  lemma StringDecides(g: Bytes, xs: seq<nat>, h: Bytes, ys: seq<nat>, cmp: int)
    requires (cmp < 0 <==> LexLess(g, h)) && (cmp > 0 <==> LexLess(h, g)) && (cmp == 0 <==> g == h)
    ensures cmp != 0 ==> Compares(cmp, g, xs, h, ys)
  {
    LexTotal(g, h);
    if LexLess(g, h) { LexAsymmetric(g, h); }
    if LexLess(h, g) { LexAsymmetric(h, g); }
  }

  method CompareFields(g: Bytes, xs: seq<nat>, h: Bytes, ys: seq<nat>) returns (cmp: int)
    requires |xs| == |ys|
    ensures Compares(cmp, g, xs, h, ys)
  {
    hide Compares, LexLess;
    cmp := CompareMemn(g, h);
    StringDecides(g, xs, h, ys, cmp);
    if cmp == 0 {
      cmp := CompareNumbers(g, xs, ys);
    }
  }

  // ---- fixed-width keys ----

  const WIDTH: nat := 8

  /** The little-endian number at `p`. */
  function NumberAt(k: Bytes, p: nat): nat
    requires p + WIDTH <= |k|
  {
    FromBytes(k[p..p + WIDTH])
  }

  function Number(n: nat): (b: Bytes)
    ensures |b| == WIDTH
  {
    ToBytes(n, WIDTH)
  }

  lemma NumberRoundTrip(k: Bytes, p: nat, n: nat)
    requires n < U64 && p + WIDTH <= |k| && k[p..p + WIDTH] == Number(n)
    ensures NumberAt(k, p) == n
  {
    assert Pow256(8) == U64;
    FromToBytes(n, WIDTH);
  }

  /** `ndb_encode_tag_key`: the group is the tag's letter and its value. */
  function TagKey(group: Bytes, ts: nat): Bytes
  {
    group + Number(ts)
  }

  function TagGroup(k: Bytes): Bytes
    requires |k| >= WIDTH
  {
    k[..|k| - WIDTH]
  }

  function TagTime(k: Bytes): nat
    requires |k| >= WIDTH
  {
    NumberAt(k, |k| - WIDTH)
  }

  lemma TagKeyRoundTrip(group: Bytes, ts: nat)
    requires ts < U64
    ensures TagGroup(TagKey(group, ts)) == group && TagTime(TagKey(group, ts)) == ts
  {
    hide FromBytes, ToBytes, Number;
    var k := TagKey(group, ts);
    NumberLength(ts);
    assert k[|group|..|group| + WIDTH] == Number(ts);
    NumberRoundTrip(k, |group|, ts);
  }

  lemma NumberLength(n: nat)
    ensures |Number(n)| == WIDTH
  {
  }

  /** `ndb_tag_key_compare` */
  method CompareTagKeys(a: Bytes, b: Bytes) returns (cmp: int)
    requires |a| >= WIDTH && |b| >= WIDTH
    ensures Compares(cmp, TagGroup(a), [TagTime(a)], TagGroup(b), [TagTime(b)])
  {
    cmp := CompareFields(a[..|a| - WIDTH], [NumberAt(a, |a| - WIDTH)], b[..|b| - WIDTH], [NumberAt(b, |b| - WIDTH)]);
  }

  /** `struct ndb_id_u64_ts`: an id, a kind and a time. */
  function IdKindKey(id: Id, kind: nat, ts: nat): Bytes
  {
    id + (Number(kind) + Number(ts))
  }

  lemma IdKindKeyRoundTrip(id: Id, kind: nat, ts: nat)
    requires kind < U64 && ts < U64
    ensures var k := IdKindKey(id, kind, ts);
      |k| == 48 && k[..32] == id && NumberAt(k, 32) == kind && NumberAt(k, 40) == ts
  {
    hide FromBytes, ToBytes, Number;
    NumberLength(kind);
    NumberLength(ts);
    var k := IdKindKey(id, kind, ts);
    assert k[32..40] == Number(kind) && k[40..48] == Number(ts);
    NumberRoundTrip(k, 32, kind);
    NumberRoundTrip(k, 40, ts);
  }

  /** `ndb_id_u64_ts_compare` */
  method CompareIdKindKeys(a: Bytes, b: Bytes) returns (cmp: int)
    requires |a| == 48 && |b| == 48
    ensures Compares(cmp, a[..32], [NumberAt(a, 32), NumberAt(a, 40)], b[..32], [NumberAt(b, 32), NumberAt(b, 40)])
  {
    cmp := CompareFields(a[..32], [NumberAt(a, 32), NumberAt(a, 40)], b[..32], [NumberAt(b, 32), NumberAt(b, 40)]);
  }

  /** `struct ndb_u64_ts` and `ndb_u64_ts_compare`: a kind and a time. */
  method CompareKindKeys(a: Bytes, b: Bytes) returns (cmp: int)
    requires |a| == 16 && |b| == 16
    ensures Compares(cmp, [], [NumberAt(a, 0), NumberAt(a, 8)], [], [NumberAt(b, 0), NumberAt(b, 8)])
  {
    cmp := CompareNumbers([], [NumberAt(a, 0), NumberAt(a, 8)], [NumberAt(b, 0), NumberAt(b, 8)]);
  }

  /** `struct ndb_tsid` and `ndb_tsid_compare`: an id and a time. */
  method CompareIdKeys(a: Bytes, b: Bytes) returns (cmp: int)
    requires |a| == 40 && |b| == 40
    ensures Compares(cmp, a[..32], [NumberAt(a, 32)], b[..32], [NumberAt(b, 32)])
  {
    cmp := CompareFields(a[..32], [NumberAt(a, 32)], b[..32], [NumberAt(b, 32)]);
  }

  /** `struct ndb_search_key` and `ndb_search_key_cmp`: 24 characters of a name and an
      id, then the time. */
  method CompareSearchKeys(a: Bytes, b: Bytes) returns (cmp: int)
    requires |a| == 64 && |b| == 64
    ensures Compares(cmp, a[..56], [NumberAt(a, 56)], b[..56], [NumberAt(b, 56)])
  {
    cmp := CompareFields(a[..56], [NumberAt(a, 56)], b[..56], [NumberAt(b, 56)]);
  }

  function Zeros(n: nat): (z: Bytes)
    ensures |z| == n
  {
    seq(n, i => 0)
  }

  const RELAY_KEY_SIZE := 256

  /** A relay's url as its length allows, cast to a byte. */
  function CutRelay(relay: Bytes): (r: Bytes)
    ensures |r| < 256 && r <= relay
    ensures r == relay <==> |relay| < 256
  {
    relay[..|relay| % 256]
  }

  /** The key `ndb_build_relay_kind_key` packs, up to its padding: the note's key, kind,
      time, the length of the relay's url, the url, and a NUL. */
  function RelayBytes(relay: Bytes, kind: nat, ts: nat, note: nat): Bytes
  {
    (Number(note) + Number(kind) + Number(ts)) + ([|CutRelay(relay)|] + (CutRelay(relay) + [0]))
  }

  /** `ndb_relay_kind_key_init` and `ndb_build_relay_kind_key` into the writer's buffer. */
  function MakeRelayKey(relay: Bytes, kind: nat, ts: nat, note: nat): Option<Bytes>
  {
    var k := RelayBytes(relay, kind, ts, note);
    var pad := ContentParser.Pad(|k|);
    if |CutRelay(relay)| > 248 || |k| > RELAY_KEY_SIZE then None
    else if pad == 0 || |k| + pad < RELAY_KEY_SIZE then Some(k + Zeros(pad))
    else None
  }

  predicate IsRelayKey(k: Bytes)
  {
    |k| > 24 && 25 + k[24] <= |k|
  }

  function RelayOf(k: Bytes): Bytes
    requires IsRelayKey(k)
  {
    k[25..25 + k[24]]
  }

  lemma RelayBytesRoundTrip(relay: Bytes, kind: nat, ts: nat, note: nat, padding: Bytes)
    requires kind < U64 && ts < U64 && note < U64
    ensures var k := RelayBytes(relay, kind, ts, note) + padding;
      && IsRelayKey(k) && RelayOf(k) == CutRelay(relay)
      && NumberAt(k, 8) == kind && NumberAt(k, 16) == ts && NumberAt(k, 0) == note
      && |RelayBytes(relay, kind, ts, note)| == 26 + |CutRelay(relay)|
  {
    var url := CutRelay(relay);
    var k := RelayBytes(relay, kind, ts, note) + padding;
    hide FromBytes, ToBytes, Number, CutRelay;
    NumberLength(note);
    NumberLength(kind);
    NumberLength(ts);
    assert k[0..8] == Number(note) && k[8..16] == Number(kind) && k[16..24] == Number(ts);
    assert k[24] == |url| && k[25..25 + |url|] == url;
    NumberRoundTrip(k, 0, note);
    NumberRoundTrip(k, 8, kind);
    NumberRoundTrip(k, 16, ts);
  }

  /** A relay key is made exactly when the cut url leaves room for its padding, and reads
      back what it was made of: the relay itself if and only if its url is shorter than
      256 bytes. */
  lemma RelayKeyRoundTrip(relay: Bytes, kind: nat, ts: nat, note: nat)
    requires kind < U64 && ts < U64 && note < U64
    ensures MakeRelayKey(relay, kind, ts, note).Some? <==> |CutRelay(relay)| <= 222 || |CutRelay(relay)| == 230
    ensures MakeRelayKey(relay, kind, ts, note).Some? ==>
      var k := MakeRelayKey(relay, kind, ts, note).value;
      && IsRelayKey(k) && NumberAt(k, 8) == kind && NumberAt(k, 16) == ts && NumberAt(k, 0) == note
      && RelayOf(k) == CutRelay(relay) && (RelayOf(k) == relay <==> |relay| < 256)
  {
    hide FromBytes, ToBytes, Number, RelayBytes;
    var pad := ContentParser.Pad(|RelayBytes(relay, kind, ts, note)|);
    RelayBytesRoundTrip(relay, kind, ts, note, Zeros(pad));
  }

  /** `ndb_relay_kind_cmp`: relay, kind, time, and last the note's key. */
  method CompareRelayKeys(a: Bytes, b: Bytes) returns (cmp: int)
    requires IsRelayKey(a) && IsRelayKey(b)
    ensures Compares(cmp, RelayOf(a), [NumberAt(a, 8), NumberAt(a, 16), NumberAt(a, 0)],
                          RelayOf(b), [NumberAt(b, 8), NumberAt(b, 16), NumberAt(b, 0)])
  {
    cmp := CompareFields(RelayOf(a), [NumberAt(a, 8), NumberAt(a, 16), NumberAt(a, 0)],
                         RelayOf(b), [NumberAt(b, 8), NumberAt(b, 16), NumberAt(b, 0)]);
  }

  // ---- the tables' order is the comparators' ----

  /** An entry's group and time under each comparator: the order on fields is the order
      of the tables. */
  lemma FieldsAreKeyLess(g: Bytes, ts: nat, h: Bytes, us: nat)
    ensures FieldsLess(g, [ts], h, [us]) <==> KeyLess(g, ts, h, us)
  {
    LexSingle(ts, us);
  }

  lemma {:induction false} LexAppend(p: seq<nat>, x: nat, q: seq<nat>, y: nat)
    requires |p| == |q|
    ensures LexLess(p + [x], q + [y]) <==> LexLess(p, q) || (p == q && x < y)
    decreases |p|
  {
    if p != [] {
      assert (p + [x])[1..] == p[1..] + [x] && (q + [y])[1..] == q[1..] + [y];
      LexAppend(p[1..], x, q[1..], y);
      assert p == [p[0]] + p[1..] && q == [q[0]] + q[1..];
    } else {
      LexSingle(x, y);
    }
  }

  lemma LexPair(x: nat, xs: seq<nat>, y: nat, ys: seq<nat>)
    ensures LexLess([x] + xs, [y] + ys) <==> x < y || (x == y && LexLess(xs, ys))
  {
    assert ([x] + xs)[1..] == xs && ([y] + ys)[1..] == ys;
  }

  /** Pubkey and kind make one group. */
  lemma KindFieldIsKeyLess(id: Id, kind: nat, ts: nat, jd: Id, lind: nat, us: nat)
    ensures FieldsLess(id, [kind, ts], jd, [lind, us]) <==> KeyLess(id + [kind], ts, jd + [lind], us)
  {
    LexAppend(id, kind, jd, lind);
    assert [kind] + [ts] == [kind, ts] && [lind] + [us] == [lind, us];
    LexPair(kind, [ts], lind, [us]);
    LexSingle(ts, us);
    LexIrreflexive(id);
    assert (id + [kind])[..32] == id && (jd + [lind])[..32] == jd;
    assert id + [kind] == jd + [lind] <==> id == jd && kind == lind by {
      assert (id + [kind])[32] == kind && (jd + [lind])[32] == lind;
    }
  }

  lemma KindAloneIsKeyLess(kind: nat, ts: nat, lind: nat, us: nat)
    ensures FieldsLess([], [kind, ts], [], [lind, us]) <==> KeyLess([kind], ts, [lind], us)
  {
    assert [kind] + [ts] == [kind, ts] && [lind] + [us] == [lind, us];
    LexPair(kind, [ts], lind, [us]);
    LexSingle(ts, us);
    LexSingle(kind, lind);
  }

  /** What the tag index is sorted by: comparing the packed keys of two entries gives
      their order in the table. */
  method CompareTagEntries(e: Entry, f: Entry) returns (cmp: int)
    requires e.ts < U64 && f.ts < U64
    ensures cmp < 0 <==> KeyLess(e.group, e.ts, f.group, f.ts)
    ensures cmp > 0 <==> KeyLess(f.group, f.ts, e.group, e.ts)
    ensures cmp == 0 <==> e.group == f.group && e.ts == f.ts
  {
    hide TagKey, TagGroup, TagTime, KeyLess, FieldsLess;
    TagKeyRoundTrip(e.group, e.ts);
    TagKeyRoundTrip(f.group, f.ts);
    TagKeyLong(e.group, e.ts);
    TagKeyLong(f.group, f.ts);
    cmp := CompareTagKeys(TagKey(e.group, e.ts), TagKey(f.group, f.ts));
    FieldsAreKeyLess(e.group, e.ts, f.group, f.ts);
    FieldsAreKeyLess(f.group, f.ts, e.group, e.ts);
  }

  lemma TagKeyLong(group: Bytes, ts: nat)
    ensures |TagKey(group, ts)| >= WIDTH
  {
  }

  /** The same of the pubkey and kind index. */
  method CompareIdKindEntries(id: Id, kind: nat, ts: nat, jd: Id, lind: nat, us: nat) returns (cmp: int)
    requires kind < U64 && ts < U64 && lind < U64 && us < U64
    ensures cmp < 0 <==> KeyLess(id + [kind], ts, jd + [lind], us)
    ensures cmp > 0 <==> KeyLess(jd + [lind], us, id + [kind], ts)
    ensures cmp == 0 <==> id == jd && kind == lind && ts == us
  {
    hide IdKindKey, KeyLess, FieldsLess, FromBytes;
    IdKindKeyRoundTrip(id, kind, ts);
    IdKindKeyRoundTrip(jd, lind, us);
    cmp := CompareIdKindKeys(IdKindKey(id, kind, ts), IdKindKey(jd, lind, us));
    KindFieldIsKeyLess(id, kind, ts, jd, lind, us);
    KindFieldIsKeyLess(jd, lind, us, id, kind, ts);
  }

  // ---- text search keys ----

  datatype TextKey = TextKey(str: Bytes, ts: nat, note: nat, word: nat)

  /** A 64-bit number that is a signed 32-bit one, sign-extended. */
  predicate Signed32(n: nat)
  {
    n < 0x8000_0000 || U64 - 0x8000_0000 <= n < U64
  }

  /** A 64-bit number through a 32-bit signed one and back. */
  function Narrowed(n: nat): (m: nat)
    ensures m < U64
    ensures m == n <==> Signed32(n)
  {
    var low := n % U32;
    if low < 0x8000_0000 then low else U64 - U32 + low
  }

  function Lowercase(s: Bytes): (t: Bytes)
    ensures |t| == |s|
  {
    seq(|s|, i requires 0 <= i < |s| => ContentScan.Lower(s[i]))
  }

  function TextHead(f: TextKey): Bytes
  {
    Varint(Narrowed(f.note)) + Varint(|f.str|)
  }

  function TextTail(f: TextKey): Bytes
  {
    Varint(Narrowed(f.ts)) + Varint(f.word)
  }

  /** The key `ndb_make_text_search_key` packs, before it is padded. */
  function TextBytes(f: TextKey): Bytes
  {
    (TextHead(f) + Lowercase(f.str)) + TextTail(f)
  }

  /** The key, byte by byte, for small numbers: note, length, the string with its capitals
      made small, time, word. */
  lemma TextKeyLayout(f: TextKey)
    requires f.note < 128 && |f.str| < 128 && f.ts < 128 && f.word < 128
    ensures var lower := seq(|f.str|, i requires 0 <= i < |f.str| =>
                if 'A' as nat <= f.str[i] <= 'Z' as nat then f.str[i] - 'A' as nat + 'a' as nat else f.str[i]);
      TextBytes(f) == [f.note, |f.str|] + lower + [f.ts, f.word]
  {
    hide Varint;
    SmallVarint(f.note);
    SmallVarint(|f.str|);
    SmallVarint(f.ts);
    SmallVarint(f.word);
  }

  /** Narrowing keeps the low 32 bits, and gives a signed number of so many. */
  lemma NarrowedIs(n: nat)
    ensures Narrowed(n) % U32 == n % U32 && Signed32(Narrowed(n))
  {
  }

  /** `ndb_make_text_search_key` into a buffer of `size` bytes. */
  function MakeTextKey(f: TextKey, size: nat): Option<Bytes>
  {
    if |TextHead(f)| + |f.str| >= size then None
    else
      var k := ContentParser.Trunc(TextBytes(f), size);
      var pad := ContentParser.Pad(|k|);
      if pad == 0 || |k| + pad < size then Some(k + Zeros(pad)) else None
  }

  /** `ndb_unpack_text_search_key` */
  function Unpack(k: Bytes): Option<TextKey>
  {
    match PullVarint(k, 0)
    case None => None
    case Some((note, p)) =>
      match PullVarint(k, p)
      case None => None
      case Some((len, q)) =>
        if q + len >= |k| then None
        else
          match PullVarint(k, q + len)
          case None => None
          case Some((ts, r)) =>
            match PullVarint(k, r)
            case None => None
            case Some((word, _)) => Some(TextKey(k[q..q + len], ts, note, word))
  }

  /** What can come back of a key. */
  function Kept(f: TextKey): TextKey
  {
    TextKey(Lowercase(f.str), Narrowed(f.ts), Narrowed(f.note), f.word)
  }

  lemma AtPrefix(a: Bytes, b: Bytes)
    ensures At(a + b, 0, a) && At(a + b, |a|, b)
  {
  }

  lemma CutNumbers(m: Bytes, p: nat, x: nat, y: nat, j: nat)
    requires x < U64 && y < U64 && j < |Varint(x) + Varint(y)| && p + j == |m| && At(m, p, (Varint(x) + Varint(y))[..j])
    ensures PullVarint(m, p) == None || PullVarint(m, PullVarint(m, p).value.1) == None
  {
    hide At, Varint, Pow128, PullFrom;
    Pow128Ten();
    var a, b := Varint(x), Varint(y);
    if j < |a| {
      assert (a + b)[..j] == a[..j];
      Blocks.CutVarint(m, p, x, 0, j);
    } else {
      assert (a + b)[..j] == a + b[..j - |a|];
      AtParts(m, p, a, b[..j - |a|]);
      VarintRoundTrip(m, p, x);
      Blocks.CutVarint(m, p + |a|, y, 0, j - |a|);
    }
  }

  /** A packed key, with anything behind it, unpacks. */
  lemma WholeUnpacks(f: TextKey, rest: Bytes)
    requires |f.str| < U64 && f.word < U64
    ensures Unpack(TextBytes(f) + rest) == Some(Kept(f))
  {
    hide At, Varint, PullVarint, Lowercase, Narrowed;
    var n, l, s, t, w := Varint(Narrowed(f.note)), Varint(|f.str|), Lowercase(f.str), Varint(Narrowed(f.ts)), Varint(f.word);
    LowercaseLength(f.str);
    NarrowedFits(f);
    var m := TextBytes(f) + rest;
    AtPrefix(TextBytes(f), rest);
    AtParts(m, 0, (n + l) + s, t + w);
    AtParts(m, 0, n + l, s);
    AtParts(m, 0, n, l);
    AtParts(m, |n + l + s|, t, w);
    VarintRoundTrip(m, 0, Narrowed(f.note));
    VarintRoundTrip(m, |n|, |f.str|);
    AtSlice(m, |n + l|, s);
    VarintRoundTrip(m, |n + l + s|, Narrowed(f.ts));
    VarintRoundTrip(m, |n + l + s| + |t|, f.word);
  }

  lemma LowercaseLength(s: Bytes)
    ensures |Lowercase(s)| == |s|
  {
  }

  lemma NarrowedFits(f: TextKey)
    ensures Narrowed(f.note) < U64 && Narrowed(f.ts) < U64
  {
  }

  /** A key cut off by the end of the buffer does not unpack. */
  lemma CutDoesNot(f: TextKey, size: nat)
    requires |f.str| < U64 && f.word < U64 && |TextHead(f)| + |f.str| < size < |TextBytes(f)|
    ensures Unpack(TextBytes(f)[..size]) == None
  {
    hide At, Varint, PullVarint, Lowercase, Narrowed;
    var n, l, s, t, w := Varint(Narrowed(f.note)), Varint(|f.str|), Lowercase(f.str), Varint(Narrowed(f.ts)), Varint(f.word);
    LowercaseLength(f.str);
    NarrowedFits(f);
    var m, j := TextBytes(f)[..size], size - |n + l + s|;
    assert m == ((n + l) + s) + (t + w)[..j];
    AtPrefix((n + l) + s, (t + w)[..j]);
    AtParts(m, 0, n + l, s);
    AtParts(m, 0, n, l);
    VarintRoundTrip(m, 0, Narrowed(f.note));
    VarintRoundTrip(m, |n|, |f.str|);
    CutNumbers(m, |n + l + s|, Narrowed(f.ts), f.word, j);
  }

  /** Unpacking a key that was made gives back its string in lower case, its word index,
      and its time and note key through 32 bits; or nothing, if its end was cut off. */
  lemma UnpackMake(f: TextKey, size: nat)
    requires |f.str| < U64 && f.word < U64 && MakeTextKey(f, size).Some?
    ensures Unpack(MakeTextKey(f, size).value) == if |TextBytes(f)| <= size then Some(Kept(f)) else None
  {
    hide Varint, PullVarint, Lowercase, Narrowed, Unpack;
    var k := ContentParser.Trunc(TextBytes(f), size);
    if |TextBytes(f)| <= size {
      WholeUnpacks(f, Zeros(ContentParser.Pad(|k|)));
    } else {
      LowercaseLength(f.str);
      CutDoesNot(f, size);
      assert k + Zeros(0) == k;
    }
  }

  /** What was packed comes back exactly when it was in lower case and its numbers are
      those of a signed 32-bit integer. */
  lemma UnpackMakeIff(f: TextKey, size: nat)
    requires |f.str| < U64 && f.word < U64 && |TextBytes(f)| <= size && MakeTextKey(f, size).Some?
    ensures Unpack(MakeTextKey(f, size).value) == Some(f)
       <==> Lowercase(f.str) == f.str && Signed32(f.ts) && Signed32(f.note)
  {
    hide MakeTextKey, Unpack, TextBytes, Lowercase;
    UnpackMake(f, size);
  }

  /** `ndb_text_search_key_compare`: the string, then time, note key and word index,
      each pulled only once the fields before it are equal. */
  method CompareTextKeys(a: Bytes, b: Bytes) returns (cmp: int)
    requires Unpack(a).Some? && Unpack(b).Some?
    ensures var x, y := Unpack(a).value, Unpack(b).value;
      Compares(cmp, x.str, [x.ts, x.note, x.word], y.str, [y.ts, y.note, y.word])
  {
    hide Compares, PullVarint, LexLess;
    ghost var x, y := Unpack(a).value, Unpack(b).value;
    var (noteA, p) := PullVarint(a, 0).value;
    var (noteB, q) := PullVarint(b, 0).value;
    var (lenA, p') := PullVarint(a, p).value;
    var (lenB, q') := PullVarint(b, q).value;
    cmp := CompareMemn(a[p'..p' + lenA], b[q'..q' + lenB]);
    StringDecides(x.str, [x.ts, x.note, x.word], y.str, [y.ts, y.note, y.word], cmp);
    if cmp == 0 {
      var (tsA, p'') := PullVarint(a, p' + lenA).value;
      var (tsB, q'') := PullVarint(b, q' + lenB).value;
      var (wordA, _) := PullVarint(a, p'').value;
      var (wordB, _) := PullVarint(b, q'').value;
      cmp := CompareNumbers(x.str, [tsA, noteA, wordA], [tsB, noteB, wordB]);
    }
  }
}
