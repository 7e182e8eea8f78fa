/** Variable-length integers (src/cursor.h). */
module Varints {
  import opened Basics
  import opened Tables
  import opened Notes

  type Bytes = seq<nat>

  /** `cursor_push_varint`, given room. */
  function Varint(n: nat): (b: Bytes)
    ensures b != []
  {
    if n < 128 then [n] else [n % 128 + 128] + Varint(n / 128)
  }

  /** The loop of `cursor_pull_varint` from its `i`-th byte: at most ten in all. */
  function PullFrom(b: Bytes, p: nat, i: nat): (r: Option<(nat, nat)>)
    requires i <= 10
    ensures r.Some? ==> p <= r.value.1 && (i < 10 ==> p < r.value.1 <= |b|)
    decreases 10 - i
  {
    if i == 10 then Some((0, p))
    else if p >= |b| then None
    else if b[p] < 128 then Some((b[p], p + 1))
    else
      match PullFrom(b, p + 1, i + 1)
      case None => None
      case Some((v, q)) => Some((b[p] % 128 + 128 * v, q))
  }

  /** `cursor_pull_varint`: bits beyond the 64th are shifted out. */
  function PullVarint(b: Bytes, p: nat): (r: Option<(nat, nat)>)
    ensures r.Some? ==> p < r.value.1 <= |b| && r.value.0 < U64
  {
    match PullFrom(b, p, 0)
    case None => None
    case Some((v, q)) => Some((v % U64, q))
  }

  /** `cursor_pull_varint_u32` */
  function PullU32(b: Bytes, p: nat): (r: Option<(nat, nat)>)
    ensures r.Some? ==> p < r.value.1 <= |b| && r.value.0 < U32
  {
    match PullVarint(b, p)
    case None => None
    case Some((v, q)) => if v >= U32 then None else Some((v, q))
  }

  function Pow128(k: nat): nat
  {
    if k == 0 then 1 else 128 * Pow128(k - 1)
  }

  lemma {:induction false} PullsPushed(m: Bytes, p: nat, n: nat, i: nat)
    requires i < 10 && n < Pow128(10 - i) && At(m, p, Varint(n))
    ensures PullFrom(m, p, i) == Some((n, p + |Varint(n)|))
    decreases n
  {
    assert Pow128(1) == 128;
    if n < 128 {
      AtHead(m, p, n, []) by { assert [n] + [] == [n]; }
    } else {
      assert Pow128(10 - i) == 128 * Pow128(9 - i);
      AtHead(m, p, n % 128 + 128, Varint(n / 128));
      PullsPushed(m, p + 1, n / 128, i + 1);
    }
  }

  lemma Pow128Ten()
    ensures U64 < Pow128(10)
  {
    assert Pow128(5) == 0x8_0000_0000;
    assert Pow128(10) == 128 * (128 * (128 * (128 * (128 * Pow128(5)))));
  }

  /** Every 64-bit value reads back as it was written, wherever it stands. */
  lemma VarintRoundTrip(m: Bytes, p: nat, n: nat)
    requires n < U64 && At(m, p, Varint(n))
    ensures PullVarint(m, p) == Some((n, p + |Varint(n)|))
    ensures n < U32 ==> PullU32(m, p) == Some((n, p + |Varint(n)|))
  {
    Pow128Ten();
    hide At, Varint, Pow128;
    PullsPushed(m, p, n, 0);
  }

  lemma SmallVarint(n: nat)
    requires n < 128
    ensures Varint(n) == [n]
  {
  }

  /** The number that seven bits a byte spell, lowest first. */
  function SevenBits(b: Bytes): nat
  {
    if b == [] then 0 else b[0] % 128 + 128 * SevenBits(b[1..])
  }

  /** A varint is the shortest such spelling (LEB128): every byte but the last has its high
      bit set, and the last is not zero unless it is the only one. */
  lemma {:induction false} VarintIsLeb128(n: nat)
    ensures var b := Varint(n);
      && SevenBits(b) == n
      && (forall i :: 0 <= i < |b| - 1 ==> 128 <= b[i] < 256)
      && b[|b| - 1] < 128 && (|b| > 1 ==> b[|b| - 1] != 0)
    decreases n
  {
    if n < 128 {
      assert [n][1..] == [];
    } else {
      VarintIsLeb128(n / 128);
      var b, rest := Varint(n), Varint(n / 128);
      assert b[1..] == rest;
      assert forall i :: 0 < i < |b| ==> b[i] == rest[i - 1];
      assert (n % 128 + 128) % 128 == n % 128;
    }
  }
}

/** Content blocks as they are stored (src/block.c, src/content_parser.c). */
module Blocks {
  import opened Basics
  import opened Tables
  import opened Notes
  import opened Varints

  datatype Desc = Description(chars: Bytes) | DescriptionHash(hash: Id)

  // What `ndb_encode_invoice` keeps of a decoded invoice.
  datatype Invoice = Invoice(amount: nat, timestamp: nat, expiry: nat, desc: Desc)

  // Most blocks are spans of the content; a hashtag's leaves out its `#`. A mention
  // and an invoice also carry what they decode to.
  datatype Block =
    | Hashtag(at: nat, len: nat)
    | Text(at: nat, len: nat)
    | MentionIndex(index: nat)
    | Mention(at: nat, len: nat, kind: nat, data: Bytes)
    | Url(at: nat, len: nat)
    | Bill(at: nat, len: nat, invoice: Invoice)

  function TypeOf(b: Block): (t: nat)
    ensures 1 <= t <= 6
  {
    match b
    case Hashtag(_, _) => 1
    case Text(_, _) => 2
    case MentionIndex(_) => 3
    case Mention(_, _, _, _) => 4
    case Url(_, _) => 5
    case Bill(_, _, _) => 6
  }

  predicate InvoiceFits(v: Invoice)
  {
    v.amount < U64 && v.timestamp < U64 && v.expiry < U64 && (v.desc.Description? ==> 0 !in v.desc.chars)
  }

  predicate Fits(b: Block)
  {
    && (if b.MentionIndex? then b.index < U32 else b.at < U32 && b.len < U32)
    && (b.Mention? ==> 1 <= b.kind <= 7 && |b.data| < 0x1_0000)
    && (b.Bill? ==> InvoiceFits(b.invoice))
  }

  function EncodeDesc(d: Desc): Bytes
  {
    match d
    case Description(chars) => [1] + (chars + [0])
    case DescriptionHash(hash) => [2] + hash
  }

  /** `ndb_encode_invoice` */
  function EncodeInvoice(v: Invoice): Bytes
  {
    [1] + (Varint(v.amount) + (Varint(v.timestamp) + (Varint(v.expiry) + EncodeDesc(v.desc))))
  }

  function EncodeMention(kind: nat, data: Bytes): Bytes
  {
    [|data| % 256] + ([|data| / 256] + (Varint(kind) + data))
  }

  function EncodeSpan(at: nat, len: nat): Bytes
  {
    Varint(at) + Varint(len)
  }

  /** What `push_block` writes behind the type. */
  function EncodeBody(b: Block): Bytes
  {
    match b
    case MentionIndex(index) => Varint(index)
    case Mention(at, len, kind, data) => EncodeSpan(at, len) + EncodeMention(kind, data)
    case Bill(at, len, invoice) => EncodeSpan(at, len) + EncodeInvoice(invoice)
    case _ => EncodeSpan(b.at, b.len)
  }

  function EncodeBlock(b: Block): (e: Bytes)
    ensures e != []
  {
    Varint(TypeOf(b)) + EncodeBody(b)
  }

  function EncodeBlocks(bs: seq<Block>): Bytes
  {
    if bs == [] then [] else EncodeBlock(bs[0]) + EncodeBlocks(bs[1..])
  }

  // ---- reading ----

  /** `parse_nostr_tlv`: the entry's type and length, and where its value starts. */
  function PullTlv(d: Bytes, p: nat): (r: Option<(nat, nat, nat)>)
    ensures r.Some? ==> r.value.2 + r.value.1 <= |d|
  {
    if p + 1 < |d| && d[p] < 4 && p + 2 + d[p + 1] <= |d| then Some((d[p], d[p + 1], p + 2)) else None
  }

  /** The loops over at most 32 entries: is the special one there, and no length wrong? */
  predicate TlvsReadable(kind: nat, d: Bytes, p: nat, i: nat, special: bool)
    decreases 32 - i
  {
    if i >= 32 then special
    else
      match PullTlv(d, p)
      case None => special
      case Some((t, len, q)) =>
        if t == 0 && (kind == 3 || kind == 4) && len != 32 then false
        else if t == 2 && (kind == 4 || kind == 6) && len != 32 then false
        else TlvsReadable(kind, d, q + len, i + 1, special || t == 0)
  }

  /** `parse_nostr_bech32_buffer`: note, npub and nsec are bare, the rest are entries. */
  predicate Readable(kind: nat, data: Bytes)
  {
    if kind == 1 || kind == 2 || kind == 7 then |data| >= 32 else TlvsReadable(kind, data, 0, 0, false)
  }

  /** `pull_str_block` */
  function PullSpan(b: Bytes, p: nat): (r: Option<(nat, nat, nat)>)
    ensures r.Some? ==> p < r.value.2 <= |b|
  {
    match PullU32(b, p)
    case None => None
    case Some((at, q)) =>
      match PullU32(b, q)
      case None => None
      case Some((len, end)) => Some((at, len, end))
  }

  /** The rest of `pull_bech32_mention`. */
  function PullMention(b: Bytes, p: nat): (r: Option<(nat, Bytes, nat)>)
    ensures r.Some? ==> p < r.value.2 <= |b|
  {
    if p + 2 > |b| then None
    else
      match PullVarint(b, p + 2)
      case None => None
      case Some((kind, q)) =>
        var end := q + b[p] + 256 * b[p + 1];
        if 1 <= kind <= 7 && end <= |b| && Readable(kind, b[q..end]) then Some((kind, b[q..end], end)) else None
  }

  /** `cursor_pull_c_str`: the string, and where it ends behind its NUL. */
  function PullCStr(b: Bytes, p: nat): (r: Option<(Bytes, nat)>)
    ensures r.Some? ==> p < r.value.1 <= |b|
    decreases |b| - p
  {
    if p >= |b| then None
    else if b[p] == 0 then Some(([], p + 1))
    else
      match PullCStr(b, p + 1)
      case None => None
      case Some((s, q)) => Some(([b[p]] + s, q))
  }

  /** A hash is skipped with `cursor_skip`, which wants a byte more than it skips. */
  function PullDesc(b: Bytes, p: nat): (r: Option<(Desc, nat)>)
    ensures r.Some? ==> p < r.value.1 <= |b|
  {
    if p >= |b| then None
    else if b[p] == 1 then
      match PullCStr(b, p + 1)
      case None => None
      case Some((s, q)) => Some((Description(s), q))
    else if b[p] == 2 && p + 33 < |b| then Some((DescriptionHash(b[p + 1..p + 33]), p + 33))
    else None
  }

  /** `ndb_decode_invoice` */
  function PullInvoice(b: Bytes, p: nat): (r: Option<(Invoice, nat)>)
    ensures r.Some? ==> p < r.value.1 <= |b|
  {
    if p >= |b| then None
    else
      match PullVarint(b, p + 1)
      case None => None
      case Some((amount, q)) =>
        match PullVarint(b, q)
        case None => None
        case Some((timestamp, q')) =>
          match PullVarint(b, q')
          case None => None
          case Some((expiry, q'')) =>
            match PullDesc(b, q'')
            case None => None
            case Some((desc, end)) => Some((Invoice(amount, timestamp, expiry, desc), end))
  }

  function PullIndex(b: Bytes, p: nat): (r: Option<(Block, nat)>)
    ensures r.Some? ==> p < r.value.1 <= |b|
  {
    match PullU32(b, p)
    case None => None
    case Some((index, end)) => Some((MentionIndex(index), end))
  }

  function PullBody(kind: nat, b: Bytes, p: nat): (r: Option<(Block, nat)>)
    ensures r.Some? ==> p < r.value.1 <= |b|
  {
    if kind == 3 then PullIndex(b, p)
    else
      match PullSpan(b, p)
      case None => None
      case Some((at, len, q)) =>
        if kind == 1 then Some((Hashtag(at, len), q))
        else if kind == 2 then Some((Text(at, len), q))
        else if kind == 5 then Some((Url(at, len), q))
        else if kind == 4 then
          match PullMention(b, q)
          case None => None
          case Some((nostr, data, end)) => Some((Mention(at, len, nostr, data), end))
        else
          match PullInvoice(b, q)
          case None => None
          case Some((invoice, end)) => Some((Bill(at, len, invoice), end))
  }

  /** `pull_block` */
  function PullBlock(b: Bytes, p: nat): (r: Option<(Block, nat)>)
    ensures r.Some? ==> p < r.value.1 <= |b|
  {
    match PullU32(b, p)
    case None => None
    case Some((kind, q)) => if 1 <= kind <= 6 then PullBody(kind, b, q) else None
  }

  /** All that `ndb_blocks_iterate_next` delivers from `p` on. */
  function IterateFrom(b: Bytes, p: nat): seq<Block>
    decreases |b| - p
  {
    if p >= |b| then []
    else
      match PullBlock(b, p)
      case None => []
      case Some((block, q)) => [block] + IterateFrom(b, q)
  }

  // ---- the bytes of a block ----

  /** Blocks with small numbers, byte by byte: the type, where they lie in the content, and
      what they carry. */
  lemma BlockBytes(at: nat, len: nat, x: nat)
    requires at < 128 && len < 128 && x < 128
    ensures EncodeBlock(Hashtag(at, len)) == [1, at, len]
    ensures EncodeBlock(Text(at, len)) == [2, at, len]
    ensures EncodeBlock(MentionIndex(x)) == [3, x]
    ensures EncodeBlock(Url(at, len)) == [5, at, len]
  {
  }

  lemma MentionBytes(at: nat, len: nat, kind: nat, data: Bytes)
    requires at < 128 && len < 128 && kind < 128
    ensures EncodeBlock(Mention(at, len, kind, data)) == [4, at, len, |data| % 256, |data| / 256, kind] + data
  {
    hide Varint;
    SmallVarint(4);
    SmallVarint(at);
    SmallVarint(len);
    SmallVarint(kind);
    assert EncodeMention(kind, data) == [|data| % 256, |data| / 256, kind] + data;
    hide EncodeMention;
    assert EncodeSpan(at, len) == [at, len];
    hide EncodeSpan;
    assert [4] + ([at, len] + ([|data| % 256, |data| / 256, kind] + data)) == [4, at, len, |data| % 256, |data| / 256, kind] + data;
  }

  lemma BillBytes(at: nat, len: nat, v: Invoice)
    requires at < 128 && len < 128 && v.amount < 128 && v.timestamp < 128 && v.expiry < 128
    ensures EncodeBlock(Bill(at, len, v)) == [6, at, len, 1, v.amount, v.timestamp, v.expiry] + EncodeDesc(v.desc)
    ensures EncodeDesc(v.desc) == match v.desc case Description(chars) => [1] + chars + [0] case DescriptionHash(hash) => [2] + hash
  {
    InvoiceBytes(v);
    hide Varint, EncodeDesc, EncodeInvoice;
    SmallVarint(6);
    SmallVarint(at);
    SmallVarint(len);
    assert EncodeSpan(at, len) == [at, len];
    hide EncodeSpan;
    var rest := EncodeDesc(v.desc);
    assert [6] + ([at, len] + ([1, v.amount, v.timestamp, v.expiry] + rest)) == [6, at, len, 1, v.amount, v.timestamp, v.expiry] + rest;
  }

  lemma InvoiceBytes(v: Invoice)
    requires v.amount < 128 && v.timestamp < 128 && v.expiry < 128
    ensures EncodeInvoice(v) == [1, v.amount, v.timestamp, v.expiry] + EncodeDesc(v.desc)
    ensures EncodeDesc(v.desc) == match v.desc case Description(chars) => [1] + chars + [0] case DescriptionHash(hash) => [2] + hash
  {
    hide Varint;
    SmallVarint(v.amount);
    SmallVarint(v.timestamp);
    SmallVarint(v.expiry);
    assert v.desc.Description? ==> [1] + (v.desc.chars + [0]) == [1] + v.desc.chars + [0];
  }

  // ---- which mentions are readable ----

  datatype Tlv = Tlv(kind: nat, value: Bytes)

  function TlvBytes(e: Tlv): Bytes
  {
    [e.kind, |e.value|] + e.value
  }

  function AllTlvs(es: seq<Tlv>): Bytes
  {
    if es == [] then [] else TlvBytes(es[0]) + AllTlvs(es[1..])
  }

  /** No entry begins `rest`: it is too short, of no known type, or longer than there is. */
  predicate NoTlv(rest: Bytes)
  {
    |rest| < 2 || rest[0] > 3 || 2 + rest[1] > |rest|
  }

  /** The entry is an author's key or an event's id of the wrong size. */
  predicate WrongLength(kind: nat, e: Tlv)
  {
    |e.value| != 32 && ((e.kind == 0 && (kind == 3 || kind == 4)) || (e.kind == 2 && (kind == 4 || kind == 6)))
  }

  ghost predicate HasSpecial(es: seq<Tlv>)
  {
    exists e :: e in es && e.kind == 0
  }

  ghost predicate RightLengths(kind: nat, es: seq<Tlv>)
  {
    forall e :: e in es ==> !WrongLength(kind, e)
  }

  lemma TlvsCons(kind: nat, e: Tlv, es: seq<Tlv>)
    ensures HasSpecial([e] + es) <==> e.kind == 0 || HasSpecial(es)
    ensures RightLengths(kind, [e] + es) <==> !WrongLength(kind, e) && RightLengths(kind, es)
  {
    hide WrongLength;
    assert e in [e] + es;
    forall x | x in es ensures x in [e] + es {
    }
  }

  lemma PullsTlv(d: Bytes, p: nat, e: Tlv, rest: Bytes)
    requires p <= |d| && d[p..] == TlvBytes(e) + rest && e.kind < 4
    ensures PullTlv(d, p) == Some((e.kind, |e.value|, p + 2)) && d[p + 2 + |e.value|..] == rest
  {
    assert d[p] == d[p..][0] && d[p + 1] == d[p..][1];
    assert d[p + 2 + |e.value|..] == d[p..][2 + |e.value|..];
  }

  lemma PullsNoTlv(d: Bytes, p: nat)
    requires p <= |d| && NoTlv(d[p..])
    ensures PullTlv(d, p) == None
  {
    if p + 1 < |d| { assert d[p] == d[p..][0] && d[p + 1] == d[p..][1]; }
  }

  lemma TlvsStep(kind: nat, d: Bytes, p: nat, i: nat, special: bool, e: Tlv)
    requires PullTlv(d, p) == Some((e.kind, |e.value|, p + 2)) && i < 32
    ensures TlvsReadable(kind, d, p, i, special)
       <==> !WrongLength(kind, e) && TlvsReadable(kind, d, p + 2 + |e.value|, i + 1, special || e.kind == 0)
  {
    hide PullTlv;
  }

  lemma TlvsEnd(kind: nat, d: Bytes, p: nat, i: nat, special: bool)
    requires p <= |d| && i <= 32 && (i == 32 || NoTlv(d[p..]))
    ensures TlvsReadable(kind, d, p, i, special) <==> special
  {
    if i < 32 { PullsNoTlv(d, p); }
  }

  lemma {:induction false} TlvsReadableIff(kind: nat, d: Bytes, p: nat, i: nat, special: bool, es: seq<Tlv>, rest: Bytes)
    requires p <= |d| && d[p..] == AllTlvs(es) + rest && i + |es| <= 32 && (i + |es| == 32 || NoTlv(rest))
    requires forall k :: 0 <= k < |es| ==> es[k].kind < 4
    ensures TlvsReadable(kind, d, p, i, special) <==> (special || HasSpecial(es)) && RightLengths(kind, es)
    decreases |es|
  {
    hide TlvsReadable, PullTlv, NoTlv, TlvBytes, WrongLength;
    if es == [] {
      assert d[p..] == rest;
      TlvsEnd(kind, d, p, i, special);
    } else {
      hide HasSpecial, RightLengths;
      var e, more := es[0], AllTlvs(es[1..]) + rest;
      assert d[p..] == TlvBytes(e) + more;
      hide AllTlvs;
      PullsTlv(d, p, e, more);
      TlvsStep(kind, d, p, i, special, e);
      TlvsReadableIff(kind, d, p + 2 + |e.value|, i + 1, special || e.kind == 0, es[1..], rest);
      TlvsCons(kind, e, es[1..]);
      assert es == [e] + es[1..];
    }
  }

  /** A profile, event, relay or address reads if and only if among its entries, 32 at
      most, is the special one and no key or id of the wrong size; notes and keys read if
      they have 32 bytes. */
  lemma ReadableIff(kind: nat, es: seq<Tlv>, rest: Bytes)
    requires 1 <= kind <= 7 && |es| <= 32 && (|es| == 32 || NoTlv(rest)) && forall k :: 0 <= k < |es| ==> es[k].kind < 4
    ensures Readable(kind, AllTlvs(es) + rest) <==>
      if kind in {1, 2, 7} then |AllTlvs(es) + rest| >= 32
      else HasSpecial(es) && RightLengths(kind, es)
  {
    var d := AllTlvs(es) + rest;
    assert d[0..] == d;
    TlvsReadableIff(kind, d, 0, 0, false, es, rest);
  }

  // ---- reading what was written ----

  lemma SpanRoundTrip(m: Bytes, p: nat, at: nat, len: nat)
    requires at < U32 && len < U32 && At(m, p, EncodeSpan(at, len))
    ensures PullSpan(m, p) == Some((at, len, p + |EncodeSpan(at, len)|))
  {
    hide At, Varint, PullU32, PullVarint;
    AtParts(m, p, Varint(at), Varint(len));
    VarintRoundTrip(m, p, at);
    VarintRoundTrip(m, p + |Varint(at)|, len);
  }

  /** A mention reads back if its data is readable, and not at all otherwise. */
  lemma MentionRoundTrip(m: Bytes, p: nat, kind: nat, data: Bytes)
    requires 1 <= kind <= 7 && |data| < 0x1_0000 && At(m, p, EncodeMention(kind, data))
    ensures PullMention(m, p) ==
      if Readable(kind, data) then Some((kind, data, p + |EncodeMention(kind, data)|)) else None
  {
    hide At, Varint, PullVarint, Readable;
    AtHead(m, p, |data| % 256, [|data| / 256] + (Varint(kind) + data));
    AtHead(m, p + 1, |data| / 256, Varint(kind) + data);
    AtParts(m, p + 2, Varint(kind), data);
    VarintRoundTrip(m, p + 2, kind);
    AtSlice(m, p + 2 + |Varint(kind)|, data);
  }

  lemma {:induction false} CStrRoundTrip(m: Bytes, p: nat, s: Bytes)
    requires 0 !in s && At(m, p, s + [0])
    ensures PullCStr(m, p) == Some((s, p + |s| + 1))
    decreases |s|
  {
    hide At;
    if s == [] {
      assert s + [0] == [0] + [];
      AtHead(m, p, 0, []);
    } else {
      assert s + [0] == [s[0]] + (s[1..] + [0]);
      AtHead(m, p, s[0], s[1..] + [0]);
      CStrRoundTrip(m, p + 1, s[1..]);
      assert s[0] in s && s == [s[0]] + s[1..];
    }
  }

  /** A description reads back; a hash only when something follows it. */
  lemma DescRoundTrip(m: Bytes, p: nat, d: Desc)
    requires At(m, p, EncodeDesc(d)) && (d.Description? ==> 0 !in d.chars)
    ensures PullDesc(m, p) ==
      if d.Description? || p + |EncodeDesc(d)| < |m| then Some((d, p + |EncodeDesc(d)|)) else None
  {
    hide At, PullCStr;
    match d {
      case Description(chars) =>
        AtHead(m, p, 1, chars + [0]);
        CStrRoundTrip(m, p + 1, chars);
      case DescriptionHash(hash) =>
        AtHead(m, p, 2, hash);
        AtSlice(m, p + 1, hash);
    }
  }

  lemma InvoiceRoundTrip(m: Bytes, p: nat, v: Invoice)
    requires InvoiceFits(v) && At(m, p, EncodeInvoice(v))
    ensures PullInvoice(m, p) ==
      if v.desc.Description? || p + |EncodeInvoice(v)| < |m| then Some((v, p + |EncodeInvoice(v)|)) else None
  {
    hide At, Varint, PullVarint, PullDesc, EncodeDesc;
    var a, t, x, d := Varint(v.amount), Varint(v.timestamp), Varint(v.expiry), EncodeDesc(v.desc);
    AtHead(m, p, 1, a + (t + (x + d)));
    AtParts(m, p + 1, a, t + (x + d));
    AtParts(m, p + 1 + |a|, t, x + d);
    AtParts(m, p + 1 + |a| + |t|, x, d);
    VarintRoundTrip(m, p + 1, v.amount);
    VarintRoundTrip(m, p + 1 + |a|, v.timestamp);
    VarintRoundTrip(m, p + 1 + |a| + |t|, v.expiry);
    DescRoundTrip(m, p + 1 + |a| + |t| + |x|, v.desc);
  }

  /** Block `b` reads back, with more bytes behind it or not. */
  predicate ReadsBack(b: Block, more: bool)
  {
    match b
    case Mention(_, _, kind, data) => Readable(kind, data)
    case Bill(_, _, invoice) => invoice.desc.Description? || more
    case _ => true
  }

  lemma BodyRoundTrip(m: Bytes, p: nat, b: Block)
    requires Fits(b) && At(m, p, EncodeBody(b))
    ensures PullBody(TypeOf(b), m, p) ==
      if ReadsBack(b, p + |EncodeBody(b)| < |m|) then Some((b, p + |EncodeBody(b)|)) else None
  {
    hide At, Varint, PullU32, PullVarint, PullSpan, EncodeSpan, PullMention, EncodeMention, PullInvoice, EncodeInvoice, Readable, PullDesc;
    match b {
      case MentionIndex(index) =>
        VarintRoundTrip(m, p, index);
      case Mention(at, len, kind, data) =>
        AtParts(m, p, EncodeSpan(at, len), EncodeMention(kind, data));
        SpanRoundTrip(m, p, at, len);
        MentionRoundTrip(m, p + |EncodeSpan(at, len)|, kind, data);
      case Bill(at, len, invoice) =>
        AtParts(m, p, EncodeSpan(at, len), EncodeInvoice(invoice));
        SpanRoundTrip(m, p, at, len);
        InvoiceRoundTrip(m, p + |EncodeSpan(at, len)|, invoice);
      case _ =>
        SpanRoundTrip(m, p, b.at, b.len);
    }
  }

  /** A pushed block is pulled back, or, if it does not read back, stops the iterator. */
  lemma BlockRoundTrip(m: Bytes, p: nat, b: Block)
    requires Fits(b) && At(m, p, EncodeBlock(b))
    ensures PullBlock(m, p) ==
      if ReadsBack(b, p + |EncodeBlock(b)| < |m|) then Some((b, p + |EncodeBlock(b)|)) else None
  {
    hide At, Varint, PullU32, PullVarint, PullBody, EncodeBody, ReadsBack, Fits;
    AtParts(m, p, Varint(TypeOf(b)), EncodeBody(b));
    VarintRoundTrip(m, p, TypeOf(b));
    BodyRoundTrip(m, p + |Varint(TypeOf(b))|, b);
  }

  // ---- rows cut short ----

  // A varint that runs out of room is cut off, and nobody notices: the failure value
  // -1 of `cursor_push_varint` counts as success.

  lemma {:induction false} CutVarint(m: Bytes, p: nat, n: nat, i: nat, j: nat)
    requires i < 10 && n < Pow128(10 - i) && j < |Varint(n)| && p + j == |m| && At(m, p, Varint(n)[..j])
    ensures PullFrom(m, p, i) == None
    decreases n
  {
    assert Pow128(1) == 128;
    if j > 0 && n >= 128 {
      assert Pow128(10 - i) == 128 * Pow128(9 - i);
      assert Varint(n)[..j] == [n % 128 + 128] + Varint(n / 128)[..j - 1];
      AtHead(m, p, n % 128 + 128, Varint(n / 128)[..j - 1]);
      CutVarint(m, p + 1, n / 128, i + 1, j - 1);
    }
  }

  /** Reading a number of a cut encoding: it is there or the read fails. */
  lemma CutPull(m: Bytes, p: nat, n: nat, rest: Bytes, j: nat)
    requires n < U32 && j <= |Varint(n) + rest| && p + j == |m| && At(m, p, (Varint(n) + rest)[..j])
    ensures j < |Varint(n)| ==> PullU32(m, p) == None
    ensures j >= |Varint(n)| ==>
      PullU32(m, p) == Some((n, p + |Varint(n)|)) && At(m, p + |Varint(n)|, rest[..j - |Varint(n)|])
  {
    hide At, Varint, Pow128, PullFrom;
    Pow128Ten();
    if j < |Varint(n)| {
      assert (Varint(n) + rest)[..j] == Varint(n)[..j];
      CutVarint(m, p, n, 0, j);
    } else {
      assert (Varint(n) + rest)[..j] == Varint(n) + rest[..j - |Varint(n)|];
      AtParts(m, p, Varint(n), rest[..j - |Varint(n)|]);
      VarintRoundTrip(m, p, n);
    }
  }

  predicate Bare(b: Block)
  {
    !b.Mention? && !b.Bill?
  }

  lemma CutSpan(m: Bytes, p: nat, at: nat, len: nat, j: nat)
    requires at < U32 && len < U32 && j < |EncodeSpan(at, len)| && p + j == |m| && At(m, p, EncodeSpan(at, len)[..j])
    ensures PullSpan(m, p) == None
  {
    hide At, Varint, PullU32;
    CutPull(m, p, at, Varint(len), j);
    if j >= |Varint(at)| {
      assert Varint(len) == Varint(len) + [];
      CutPull(m, p + |Varint(at)|, len, [], j - |Varint(at)|);
    }
  }

  /** A cut block of numbers does not read back. */
  lemma CutBlock(m: Bytes, p: nat, b: Block, j: nat)
    requires Fits(b) && Bare(b) && j < |EncodeBlock(b)| && p + j == |m| && At(m, p, EncodeBlock(b)[..j])
    ensures PullBlock(m, p) == None
  {
    hide At, Varint, PullU32, PullSpan, EncodeSpan;
    CutPull(m, p, TypeOf(b), EncodeBody(b), j);
    var q, k := p + |Varint(TypeOf(b))|, j - |Varint(TypeOf(b))|;
    if k >= 0 {
      if b.MentionIndex? {
        assert EncodeBody(b) == Varint(b.index) + [];
        CutPull(m, q, b.index, [], k);
      } else {
        CutSpan(m, q, b.at, b.len, k);
      }
    }
  }

  /** At most a block of numbers is cut when only `n` bytes of the encoding are kept. */
  ghost predicate CutsBare(bs: seq<Block>, n: nat)
  {
    bs != [] ==>
      if |EncodeBlock(bs[0])| <= n then CutsBare(bs[1..], n - |EncodeBlock(bs[0])|) else n == 0 || Bare(bs[0])
  }

  /** The blocks that come back from the first `n` bytes of an encoding. */
  function Delivered(bs: seq<Block>, n: nat): (d: seq<Block>)
    ensures d <= bs
  {
    if bs == [] || |EncodeBlock(bs[0])| > n || !ReadsBack(bs[0], |EncodeBlock(bs[0])| < n) then []
    else [bs[0]] + Delivered(bs[1..], n - |EncodeBlock(bs[0])|)
  }

  ghost predicate AllFit(bs: seq<Block>)
  {
    forall i :: 0 <= i < |bs| ==> Fits(bs[i])
  }

  lemma {:induction false} IteratesFrom(m: Bytes, p: nat, bs: seq<Block>, n: nat)
    requires AllFit(bs) && CutsBare(bs, n) && n <= |EncodeBlocks(bs)| && p + n == |m| && At(m, p, EncodeBlocks(bs)[..n])
    ensures IterateFrom(m, p) == Delivered(bs, n)
    decreases |bs|
  {
    hide PullBlock, EncodeBlock, At, ReadsBack, Fits;
    if bs != [] && n > 0 {
      var e, rest := EncodeBlock(bs[0]), EncodeBlocks(bs[1..]);
      if |e| <= n {
        assert (e + rest)[..n] == e + rest[..n - |e|];
        AtParts(m, p, e, rest[..n - |e|]);
        BlockRoundTrip(m, p, bs[0]);
        IteratesFrom(m, p + |e|, bs[1..], n - |e|);
      } else {
        assert (e + rest)[..n] == e[..n];
        CutBlock(m, p, bs[0], n);
      }
    }
  }

  /** Iterating the first `n` bytes of an encoding delivers its blocks, in order, up to
      the first that is cut off or does not read back. */
  lemma IterateDelivers(bs: seq<Block>, n: nat)
    requires AllFit(bs) && CutsBare(bs, n) && n <= |EncodeBlocks(bs)|
    ensures IterateFrom(EncodeBlocks(bs)[..n], 0) == Delivered(bs, n)
  {
    IteratesFrom(EncodeBlocks(bs)[..n], 0, bs, n);
  }

  /** Every block reads back where it stands: a hash invoice is not the last. */
  ghost predicate AllReadBack(bs: seq<Block>)
  {
    forall i :: 0 <= i < |bs| ==> ReadsBack(bs[i], i < |bs| - 1)
  }

  /** All blocks come back if and only if none is cut off and all read back. */
  lemma {:induction false} DeliversAllIff(bs: seq<Block>, n: nat)
    requires n <= |EncodeBlocks(bs)|
    ensures Delivered(bs, n) == bs <==> n == |EncodeBlocks(bs)| && AllReadBack(bs)
    decreases |bs|
  {
    hide EncodeBlock, ReadsBack;
    if bs != [] {
      var e := |EncodeBlock(bs[0])|;
      assert |bs| > 1 ==> |EncodeBlocks(bs[1..])| > 0;
      if e <= n {
        DeliversAllIff(bs[1..], n - e);
        assert bs == [bs[0]] + bs[1..];
        if n == |EncodeBlocks(bs)| {
          assert e < n <==> 0 < |bs| - 1;
          assert AllReadBack(bs) ==> ReadsBack(bs[0], 0 < |bs| - 1);
          if ReadsBack(bs[0], 0 < |bs| - 1) && AllReadBack(bs[1..]) {
            forall i | 0 <= i < |bs| ensures ReadsBack(bs[i], i < |bs| - 1) {
              if i > 0 { assert ReadsBack(bs[1..][i - 1], i - 1 < |bs[1..]| - 1); }
            }
          }
          if AllReadBack(bs) {
            forall i | 0 <= i < |bs[1..]| ensures ReadsBack(bs[1..][i], i < |bs[1..]| - 1) {
              assert ReadsBack(bs[i + 1], i + 1 < |bs| - 1);
            }
          }
        }
      }
    }
  }

  // ---- stored rows ----

  const HEADER := 24

  // The sizes in a row's header, and the bytes behind it up to blocks_size.
  datatype StoredRow = StoredRow(blocks: Bytes, totalSize: nat)

  predicate Inside(b: Block, contentLen: nat)
  {
    b.MentionIndex? || b.at + b.len <= contentLen
  }

  /** What is iterated from `p` on lies inside the content. */
  ghost predicate SafeFrom(b: Bytes, p: nat, contentLen: nat)
  {
    forall i :: 0 <= i < |IterateFrom(b, p)| ==> Inside(IterateFrom(b, p)[i], contentLen)
  }

  lemma SafeStep(b: Bytes, p: nat, contentLen: nat)
    requires p < |b|
    ensures match PullBlock(b, p)
      case None => SafeFrom(b, p, contentLen)
      case Some((block, q)) => SafeFrom(b, p, contentLen) <==> Inside(block, contentLen) && SafeFrom(b, q, contentLen)
  {
    hide Inside, PullBlock;
    match PullBlock(b, p) {
      case None =>
      case Some((block, q)) =>
        var rest := IterateFrom(b, q);
        assert IterateFrom(b, p) == [block] + rest;
        assert ([block] + rest)[0] == block;
        assert forall i :: 0 <= i < |rest| ==> rest[i] == ([block] + rest)[i + 1];
    }
  }

  /** A row as `ndb_write_blocks` may store it: sizes that agree, and no string
      outside the content. */
  ghost predicate IsStored(row: StoredRow, rowSize: nat, contentLen: nat)
  {
    && HEADER <= rowSize && HEADER + |row.blocks| <= row.totalSize <= rowSize
    && row.totalSize < HEADER + |row.blocks| + 8
    && SafeFrom(row.blocks, 0, contentLen)
  }

  /** `ndb_stored_blocks_ok` */
  method StoredBlocksOk(row: StoredRow, rowSize: nat, contentLen: nat) returns (ok: bool)
    ensures ok == IsStored(row, rowSize, contentLen)
  {
    hide SafeFrom, Inside, PullBlock, IterateFrom;
    if rowSize < HEADER || row.totalSize > rowSize {
      return false;
    }
    if row.totalSize < HEADER + |row.blocks| {
      return false;
    }
    var slack := row.totalSize - HEADER - |row.blocks|;
    if slack >= 8 {
      return false;
    }
    var p := 0;
    while p < |row.blocks|
      invariant 0 <= p <= |row.blocks|
      invariant SafeFrom(row.blocks, 0, contentLen) <==> SafeFrom(row.blocks, p, contentLen)
    {
      SafeStep(row.blocks, p, contentLen);
      var next := PullBlock(row.blocks, p);
      if next.None? {
        return true;
      }
      if !Inside(next.value.0, contentLen) {
        return false;
      }
      p := next.value.1;
    }
    SafeEnd(row.blocks, p, contentLen);
    return true;
  }

  lemma SafeEnd(b: Bytes, p: nat, contentLen: nat)
    requires p >= |b|
    ensures SafeFrom(b, p, contentLen)
  {
  }
}
