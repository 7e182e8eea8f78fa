/** `ndb_parse_content`: from a note's content to the row of blocks kept for it. */
module ContentParser {
  import opened Basics
  import opened Tables
  import opened Notes
  import opened Varints
  import opened Blocks
  import opened ContentScan

  // What the bech32 and bolt11 decoders make of a string; bech32 packs five bits into
  // a character, so it never decodes to more bytes than it has.
  datatype Decoders = Decoders(bech32: Bytes -> Option<Bytes>, bolt11: Bytes -> Option<Invoice>)

  ghost predicate Sane(d: Decoders)
  {
    && (forall s :: d.bech32(s).Some? ==> |d.bech32(s).value| <= |s|)
    && (forall s :: d.bolt11(s).Some? ==> InvoiceFits(d.bolt11(s).value))
  }

  /** A cursor with room for `room` bytes drops what does not fit. */
  function Trunc(b: Bytes, room: nat): (t: Bytes)
    ensures |t| <= room && t <= b
  {
    if |b| <= room then b else b[..room]
  }

  /** The block a find stands for, were there room. A mention or an invoice that does
      not decode is text. An invoice is read up to the end of the content, or its first NUL. */
  function Ideal(d: Decoders, c: Bytes, f: Find): Block
    requires Within(f, |c|)
  {
    match f
    case Plain(b) => b
    case Bech32(at, len, kind) =>
      (match d.bech32(c[at..at + len])
       case Some(data) => if |data| < 0x1_0000 then Mention(at, len, kind, data) else Text(at, len)
       case None => Text(at, len))
    case Bolt11(at, len) =>
      (match d.bolt11(CString(c[at..]))
       case Some(invoice) => Bill(at, len, invoice)
       case None => Text(at, len))
  }

  /** The room a block takes while it is pushed: a mention is decoded in the buffer, by
      way of twice its length. */
  function Needs(b: Block): nat
  {
    match b
    case Mention(at, len, kind, data) => 1 + |EncodeSpan(at, len)| + 2 + |Varint(kind)| + len + len
    case Bill(_, _, _) => |EncodeBlock(b)|
    case _ => 0
  }

  /** The block that a find is stored as behind `used` bytes. */
  function BlockFor(d: Decoders, c: Bytes, room: nat, used: nat, f: Find): Block
    requires Within(f, |c|)
  {
    var b := Ideal(d, c, f);
    if Bare(b) || used + Needs(b) <= room then b else Text(b.at, b.len)
  }

  function BlocksFor(d: Decoders, c: Bytes, room: nat, used: nat, fs: seq<Find>): (bs: seq<Block>)
    requires forall i :: 0 <= i < |fs| ==> Within(fs[i], |c|)
    ensures |bs| == |fs|
    decreases |fs|
  {
    if fs == [] then []
    else
      var b := BlockFor(d, c, room, used, fs[0]);
      [b] + BlocksFor(d, c, room, Least(room, used + |EncodeBlock(b)|), fs[1..])
  }

  // ---- pushing ----

  ghost predicate AllWithin(fs: seq<Find>, n: nat)
  {
    forall i :: 0 <= i < |fs| ==> Within(fs[i], n)
  }

  lemma TextWithin(start: nat, end: nat, n: nat)
    requires start <= end <= n
    ensures AllWithin(TextOf(start, end), n)
  {
  }

  lemma FindsWithin(c: Bytes)
    ensures AllWithin(Finds(c), |c|)
  {
  }

  /** The buffer once all of `fs` is pushed behind `b`. */
  function PushAll(d: Decoders, c: Bytes, room: nat, b: Bytes, fs: seq<Find>): (b': Bytes)
    requires |b| <= room && forall i :: 0 <= i < |fs| ==> Within(fs[i], |c|)
    ensures |b'| <= room
    decreases |fs|
  {
    if fs == [] then b
    else PushAll(d, c, room, Trunc(b + EncodeBlock(BlockFor(d, c, room, |b|, fs[0])), room), fs[1..])
  }

  lemma PushNone(d: Decoders, c: Bytes, room: nat, b: Bytes)
    requires |b| <= room
    ensures PushAll(d, c, room, b, []) == b
  {
  }

  lemma PushOne(d: Decoders, c: Bytes, room: nat, b: Bytes, f: Find)
    requires |b| <= room && Within(f, |c|)
    ensures PushAll(d, c, room, b, [f]) == Trunc(b + EncodeBlock(BlockFor(d, c, room, |b|, f)), room)
  {
    hide BlockFor, EncodeBlock, Trunc, Within;
    assert [f][1..] == [];
  }

  lemma {:induction false} PushSplits(d: Decoders, c: Bytes, room: nat, b: Bytes, fs: seq<Find>, gs: seq<Find>)
    requires |b| <= room && AllWithin(fs, |c|) && AllWithin(gs, |c|)
    ensures AllWithin(fs + gs, |c|)
    ensures PushAll(d, c, room, b, fs + gs) == PushAll(d, c, room, PushAll(d, c, room, b, fs), gs)
    decreases |fs|
  {
    hide BlockFor, EncodeBlock, Within;
    if fs == [] {
      assert fs + gs == gs;
    } else {
      assert (fs + gs)[1..] == fs[1..] + gs;
      PushSplits(d, c, room, Trunc(b + EncodeBlock(BlockFor(d, c, room, |b|, fs[0])), room), fs[1..], gs);
    }
  }

  lemma TruncTwice(a: Bytes, b: Bytes, room: nat)
    ensures Trunc(Trunc(a, room) + b, room) == Trunc(a + b, room)
  {
  }

  lemma PushedByte(b: Bytes, x: nat, rest: Bytes, room: nat)
    requires |b| <= room
    ensures Trunc(b + ([x] + rest), room) == if |b| < room then Trunc((b + [x]) + rest, room) else b
  {
    assert b + ([x] + rest) == (b + [x]) + rest;
  }

  lemma Full(b: Bytes, rest: Bytes, room: nat)
    requires |b| <= room
    ensures |b| == room || rest == [] ==> Trunc(b + rest, room) == b
  {
    assert rest == [] ==> b + rest == b;
  }

  class Parser {
    const content: Cursor
    const decoders: Decoders
    const room: nat
    // What stands behind the header.
    var buffer: Bytes

    ghost predicate Valid()
      reads this, content
    {
      content.Valid() && |buffer| <= room
    }

    constructor (c: Bytes, d: Decoders, room: nat)
      ensures Valid() && fresh(content) && content.c == c && content.p == 0
      ensures decoders == d && this.room == room && buffer == []
    {
      content := new Cursor(c);
      decoders := d;
      this.room := room;
      buffer := [];
    }

    /** `cursor_push_byte` */
    method PushByte(b: nat) returns (ok: bool)
      requires Valid()
      modifies this
      ensures Valid() && ok == (|old(buffer)| < room) && buffer == if ok then old(buffer) + [b] else old(buffer)
    {
      ok := |buffer| < room;
      if ok { buffer := buffer + [b]; }
    }

    /** `cursor_push_varint`, whose failures its callers overlook. */
    method PushVarint(n: nat)
      requires Valid()
      modifies this
      ensures Valid() && buffer == Trunc(old(buffer) + Varint(n), room)
    {
      hide Trunc;
      var m, ok := n, true;
      while ok && m >= 128
        invariant Valid() && (!ok ==> |buffer| == room)
        invariant Trunc(buffer + Varint(m), room) == Trunc(old(buffer) + Varint(n), room)
        decreases m, ok
      {
        ghost var was := buffer;
        PushedByte(was, m % 128 + 128, Varint(m / 128), room);
        assert Trunc(was + Varint(m), room) == Trunc(old(buffer) + Varint(n), room);
        ok := PushByte(m % 128 + 128);
        if ok { m := m / 128; }
      }
      if ok {
        assert buffer + Varint(m) == buffer + ([m] + []);
        PushedByte(buffer, m, [], room);
        ok := PushByte(m);
        assert buffer + [] == buffer;
      }
      Full(buffer, Varint(m), room);
      Full(buffer, [], room);
    }

    /** `push_str_block` */
    method PushSpan(at: nat, len: nat)
      requires Valid()
      modifies this
      ensures Valid() && buffer == Trunc(old(buffer) + EncodeSpan(at, len), room)
    {
      hide Varint;
      PushVarint(at);
      PushVarint(len);
      TruncTwice(old(buffer) + Varint(at), Varint(len), room);
      assert old(buffer) + Varint(at) + Varint(len) == old(buffer) + EncodeSpan(at, len);
    }

    /** `push_bech32_mention` */
    method PushMention(at: nat, len: nat, kind: nat) returns (ok: bool)
      requires Valid() && at + len <= |content.c| && len > 0 && 1 <= kind <= 7 && Sane(decoders)
      modifies this
      ensures Valid() && ok == MentionFits(decoders, content.c, room, |old(buffer)|, at, len, kind)
      ensures !ok ==> buffer == old(buffer)
      ensures ok ==>
        buffer == old(buffer) + (EncodeSpan(at, len) + EncodeMention(kind, decoders.bech32(content.c[at..at + len]).value))
    {
      hide Varint, EncodeSpan;
      var start := buffer;
      PushSpan(at, len);
      var sizeAt := |buffer|;
      ok := |buffer| + 2 < room;
      if ok {
        buffer := buffer + [0, 0];
        PushVarint(kind);
        ok := |buffer| + len <= room && |buffer| + len + len <= room;
      }
      var data := decoders.bech32(content.c[at..at + len]);
      ok := ok && data.Some? && |data.value| < 0x1_0000;
      if ok {
        buffer := buffer + data.value;
        buffer := buffer[sizeAt := |data.value| % 256][sizeAt + 1 := |data.value| / 256];
        assert buffer == start + (EncodeSpan(at, len) + EncodeMention(kind, data.value));
      } else {
        buffer := start;
      }
    }

    method Push(b: Bytes) returns (ok: bool)
      requires Valid()
      modifies this
      ensures Valid() && ok == (|old(buffer)| + |b| <= room)
      ensures buffer == if ok then old(buffer) + b else old(buffer)
    {
      ok := |buffer| + |b| <= room;
      if ok { buffer := buffer + b; }
    }

    /** `cursor_push_c_str` */
    method PushCStr(chars: Bytes) returns (ok: bool)
      requires Valid()
      modifies this
      ensures Valid() && ok == (|old(buffer)| + |chars + [0]| <= room)
      ensures ok ==> buffer == old(buffer) + (chars + [0])
    {
      ok := Push(chars);
      if ok { ok := PushByte(0); }
      assert old(buffer) + chars + [0] == old(buffer) + (chars + [0]);
    }

    method PushDesc(d: Desc) returns (ok: bool)
      requires Valid()
      modifies this
      ensures Valid() && ok == (|old(buffer)| + |EncodeDesc(d)| <= room)
      ensures ok ==> buffer == old(buffer) + EncodeDesc(d)
    {
      hide EncodeDesc, Trunc;
      DescParts(buffer, d);
      ok := PushByte(if d.Description? then 1 else 2);
      if ok {
        if d.Description? {
          ok := PushCStr(d.chars);
        } else {
          ok := Push(d.hash);
        }
      }
    }

    /** `ndb_encode_invoice`: its bytes fail where its varints do not. */
    method PushInvoice(v: Invoice) returns (ok: bool)
      requires Valid()
      modifies this
      ensures Valid() && ok == (|old(buffer)| + |EncodeInvoice(v)| <= room)
      ensures ok ==> buffer == old(buffer) + EncodeInvoice(v)
    {
      hide Varint, EncodeDesc, EncodeInvoice;
      InvoiceParts(buffer, v);
      ok := PushByte(1);
      if ok {
        PushVarint(v.amount);
        PushVarint(v.timestamp);
        PushVarint(v.expiry);
        TruncThrice(old(buffer) + [1], Varint(v.amount), Varint(v.timestamp), Varint(v.expiry), room);
        ok := PushDesc(v.desc);
      }
    }

    /** `push_invoice_str` */
    method PushBill(at: nat, len: nat) returns (ok: bool)
      requires Valid() && at + len <= |content.c|
      modifies this
      ensures Valid()
      ensures ok == (var v := decoders.bolt11(CString(content.c[at..]));
        v.Some? && |old(buffer)| + |EncodeSpan(at, len) + EncodeInvoice(v.value)| <= room)
      ensures !ok ==> buffer == old(buffer)
      ensures ok ==>
        buffer == old(buffer) + (EncodeSpan(at, len) + EncodeInvoice(decoders.bolt11(CString(content.c[at..])).value))
    {
      hide EncodeSpan, EncodeInvoice, CString, EncodeDesc, Varint;
      var start := buffer;
      var v := decoders.bolt11(CString(content.c[at..]));
      ok := v.Some?;
      if ok {
        InvoiceParts(start, v.value);
        PushSpan(at, len);
        ok := PushInvoice(v.value);
        if ok {
          assert start + EncodeSpan(at, len) + EncodeInvoice(v.value) == start + (EncodeSpan(at, len) + EncodeInvoice(v.value));
        } else {
          buffer := start;
        }
      }
    }

    method PushPlain(b: Block)
      requires Valid() && Bare(b)
      modifies this
      ensures Valid() && buffer == Trunc(old(buffer) + EncodeBlock(b), room)
    {
      hide Varint, EncodeSpan;
      PushVarint(TypeOf(b));
      if b.MentionIndex? {
        PushVarint(b.index);
      } else {
        PushSpan(b.at, b.len);
      }
      TruncTwice(old(buffer) + Varint(TypeOf(b)), EncodeBody(b), room);
      assert old(buffer) + Varint(TypeOf(b)) + EncodeBody(b) == old(buffer) + EncodeBlock(b);
    }

    /** `push_block`: what does not decode, or has no room to, becomes text. */
    method PushBlock(f: Find)
      requires Valid() && Within(f, |content.c|) && Sane(decoders)
      modifies this
      ensures Valid()
      ensures buffer == Trunc(old(buffer) + EncodeBlock(BlockFor(decoders, content.c, room, |old(buffer)|, f)), room)
    {
      hide Varint, EncodeSpan, EncodeMention, EncodeInvoice, CString, Sane, InvoiceFits;
      var start := buffer;
      match f {
        case Plain(b) =>
          PushPlain(b);
        case Bech32(at, len, kind) =>
          PushVarint(4);
          var ok := PushMention(at, len, kind);
          MentionPushed(decoders, content.c, room, start, f);
          if !ok {
            buffer := start;
            PushPlain(Text(at, len));
          }
        case Bolt11(at, len) =>
          PushVarint(6);
          var ok := PushBill(at, len);
          BillPushed(decoders, content.c, room, start, f);
          if !ok {
            buffer := start;
            PushPlain(Text(at, len));
          }
      }
    }

    /** `add_text_block` */
    method PushText(start: nat, end: nat)
      requires Valid() && start <= end <= |content.c| && Sane(decoders)
      modifies this
      ensures Valid() && buffer == PushAll(decoders, content.c, room, old(buffer), TextOf(start, end))
    {
      hide BlockFor, EncodeBlock, Trunc, Sane;
      assert Within(Plain(Text(start, end - start)), |content.c|);
      PushNone(decoders, content.c, room, buffer);
      PushOne(decoders, content.c, room, buffer, Plain(Text(start, end - start)));
      if start != end {
        PushBlock(Plain(Text(start, end - start)));
      }
    }

    /** The loop of `ndb_parse_content`. */
    method Parse()
      requires Valid() && content.p == 0 && buffer == [] && Sane(decoders)
      modifies this, content
      ensures Valid() && buffer == PushAll(decoders, content.c, room, [], Finds(content.c))
    {
      hide ScanIndex, ScanHashtag, ScanUrl, ScanInvoice, ScanMention, LeftBoundary, Within, PushAll, BlockFor, EncodeBlock, Trunc, Sane;
      var start: nat := 0;
      while content.p < |content.c|
        invariant Valid() && start <= content.p
        invariant PushAll(decoders, content.c, room, buffer, FindsFrom(content.c, start, content.p))
               == PushAll(decoders, content.c, room, [], Finds(content.c))
        decreases |content.c| - content.p
      {
        ghost var was := buffer;
        var mention := content.p;
        var f := content.ParseTurn();
        ghost var s := Turn(content.c, mention);
        if f.Some? {
          ghost var text, rest := TextOf(start, mention), FindsFrom(content.c, s.next, s.next);
          TextWithin(start, mention, |content.c|);
          PushSplits(decoders, content.c, room, was, text, [f.value] + rest);
          PushSplits(decoders, content.c, room, PushAll(decoders, content.c, room, was, text), [f.value], rest);
          PushText(start, mention);
          PushOne(decoders, content.c, room, buffer, f.value);
          start := content.p;
          PushBlock(f.value);
        }
      }
      PushText(start, content.p);
    }
  }

  lemma TruncThrice(a: Bytes, x: Bytes, y: Bytes, z: Bytes, room: nat)
    ensures Trunc(Trunc(Trunc(a + x, room) + y, room) + z, room) == Trunc(a + (x + (y + z)), room)
  {
    hide Trunc;
    TruncTwice(a + x, y, room);
    TruncTwice(a + x + y, z, room);
    assert a + x + y + z == a + (x + (y + z));
  }

  lemma DescParts(b: Bytes, d: Desc)
    ensures match d
      case Description(chars) => b + EncodeDesc(d) == (b + [1]) + (chars + [0]) && |EncodeDesc(d)| == 1 + |chars + [0]|
      case DescriptionHash(hash) => b + EncodeDesc(d) == (b + [2]) + hash && |EncodeDesc(d)| == 1 + |hash|
  {
  }

  lemma InvoiceParts(b: Bytes, v: Invoice)
    ensures var numbers := Varint(v.amount) + (Varint(v.timestamp) + Varint(v.expiry));
      && b + EncodeInvoice(v) == ((b + [1]) + numbers) + EncodeDesc(v.desc)
      && |EncodeInvoice(v)| == 1 + |numbers| + |EncodeDesc(v.desc)| && EncodeDesc(v.desc) != []
  {
    assert EncodeDesc(v.desc) != [];
    hide Varint, EncodeDesc;
  }

  lemma BehindType(start: Bytes, t: nat, rest: Bytes, room: nat)
    requires |start| <= room && t < 128
    ensures |Trunc(start + Varint(t), room)| == Least(room, |start| + 1)
    ensures |start| < room ==> Trunc(start + Varint(t), room) + rest == start + (Varint(t) + rest)
    ensures |Varint(t)| == 1
  {
    assert start + [t] + rest == start + ([t] + rest);
  }

  /** The bookkeeping of a mention pushed behind its type. */
  lemma MentionPushed(d: Decoders, c: Bytes, room: nat, start: Bytes, f: Find)
    requires f.Bech32? && Within(f, |c|) && |start| <= room
    ensures var used, data := |Trunc(start + Varint(4), room)|, d.bech32(c[f.at..f.at + f.len]);
      if MentionFits(d, c, room, used, f.at, f.len, f.kind) then
        && BlockFor(d, c, room, |start|, f) == Mention(f.at, f.len, f.kind, data.value)
        && Trunc(start + Varint(4), room) + (EncodeSpan(f.at, f.len) + EncodeMention(f.kind, data.value))
           == start + EncodeBlock(Mention(f.at, f.len, f.kind, data.value))
      else
        BlockFor(d, c, room, |start|, f) == Text(f.at, f.len)
  {
    hide EncodeSpan, EncodeMention, Varint, Trunc;
    var data := d.bech32(c[f.at..f.at + f.len]);
    BehindType(start, 4, if data.Some? then EncodeSpan(f.at, f.len) + EncodeMention(f.kind, data.value) else [], room);
  }

  lemma BillPushed(d: Decoders, c: Bytes, room: nat, start: Bytes, f: Find)
    requires f.Bolt11? && Within(f, |c|) && |start| <= room
    ensures var used, v := |Trunc(start + Varint(6), room)|, d.bolt11(CString(c[f.at..]));
      if v.Some? && used + |EncodeSpan(f.at, f.len) + EncodeInvoice(v.value)| <= room then
        && BlockFor(d, c, room, |start|, f) == Bill(f.at, f.len, v.value)
        && Trunc(start + Varint(6), room) + (EncodeSpan(f.at, f.len) + EncodeInvoice(v.value))
           == start + EncodeBlock(Bill(f.at, f.len, v.value))
      else
        BlockFor(d, c, room, |start|, f) == Text(f.at, f.len)
  {
    hide EncodeSpan, EncodeInvoice, CString, Varint, Trunc;
    var v := d.bolt11(CString(c[f.at..]));
    BehindType(start, 6, if v.Some? then EncodeSpan(f.at, f.len) + EncodeInvoice(v.value) else [], room);
    if v.Some? { InvoiceParts(start, v.value); }
  }

  /** When `push_bech32_mention` succeeds behind `used` bytes. */
  function MentionFits(d: Decoders, c: Bytes, room: nat, used: nat, at: nat, len: nat, kind: nat): bool
    requires at + len <= |c|
  {
    var data := d.bech32(c[at..at + len]);
    data.Some? && |data.value| < 0x1_0000
    && used + |EncodeSpan(at, len)| + 2 + |Varint(kind)| + len + len <= room
  }

  // ---- the row ----

  /** The blocks that a note's content is stored as, in `room` bytes. */
  function Stored(d: Decoders, c: Bytes, room: nat): seq<Block>
  {
    BlocksFor(d, c, room, 0, Finds(c))
  }

  function Pad(size: nat): nat
  {
    (8 - size % 8) % 8
  }

  /** `ndb_parse_content`. It fails for want of a header's room or when padding would
      reach the buffer's end, and for no content. */
  method ParseContent(c: Bytes, bufSize: nat, d: Decoders) returns (r: Option<StoredRow>)
    requires Sane(d)
    ensures r.Some? <==> bufSize >= HEADER && Aligns(|Encoded(d, c, bufSize)|, bufSize)
    ensures r.Some? ==> r.value.blocks == Encoded(d, c, bufSize)
    ensures r.Some? ==> r.value.totalSize == HEADER + |r.value.blocks| + Pad(HEADER + |r.value.blocks|)
  {
    hide PushAll, Sane, EncodeBlocks, BlocksFor, Finds;
    r := None;
    if bufSize >= HEADER {
      var parser := new Parser(c, d, bufSize - HEADER);
      parser.Parse();
      PushedAll(d, c, bufSize - HEADER);
      var size := HEADER + |parser.buffer|;
      var pad := Pad(size);
      if pad == 0 || size + pad < bufSize {
        r := Some(StoredRow(parser.buffer, size + pad));
      }
    }
  }

  function Encoded(d: Decoders, c: Bytes, bufSize: nat): Bytes
  {
    if bufSize < HEADER then [] else Trunc(EncodeBlocks(Stored(d, c, bufSize - HEADER)), bufSize - HEADER)
  }

  /** `cursor_align` wants a byte more than it pads. */
  predicate Aligns(size: nat, bufSize: nat)
  {
    Pad(HEADER + size) == 0 || HEADER + size + Pad(HEADER + size) < bufSize
  }

  lemma PushedStep(b: Bytes, e: Bytes, rest: Bytes, room: nat)
    requires |b| <= room
    ensures Trunc(Trunc(b + e, room) + rest, room) == Trunc(b + (e + rest), room)
    ensures |Trunc(b + e, room)| == Least(room, |b| + |e|)
  {
    TruncTwice(b + e, rest, room);
    assert b + e + rest == b + (e + rest);
  }

  lemma {:induction false} PushedFrom(d: Decoders, c: Bytes, room: nat, b: Bytes, fs: seq<Find>)
    requires |b| <= room && AllWithin(fs, |c|)
    ensures PushAll(d, c, room, b, fs) == Trunc(b + EncodeBlocks(BlocksFor(d, c, room, |b|, fs)), room)
    decreases |fs|
  {
    hide BlockFor, EncodeBlock, Within, Trunc, Least;
    if fs == [] {
      Full(b, [], room);
    } else {
      var block := BlockFor(d, c, room, |b|, fs[0]);
      var b' := Trunc(b + EncodeBlock(block), room);
      var bs := BlocksFor(d, c, room, |b'|, fs[1..]);
      PushedStep(b, EncodeBlock(block), EncodeBlocks(bs), room);
      PushedFrom(d, c, room, b', fs[1..]);
      assert ([block] + bs)[1..] == bs;
    }
  }

  lemma PushedAll(d: Decoders, c: Bytes, room: nat)
    ensures PushAll(d, c, room, [], Finds(c)) == Trunc(EncodeBlocks(Stored(d, c, room)), room)
  {
    hide PushAll, Within;
    PushedFrom(d, c, room, [], Finds(c));
    assert [] + EncodeBlocks(Stored(d, c, room)) == EncodeBlocks(Stored(d, c, room));
  }

  // ---- what the row is good for ----

  lemma BlockForFits(d: Decoders, c: Bytes, room: nat, used: nat, f: Find)
    requires Sane(d) && Within(f, |c|) && |c| < U32
    ensures var b := BlockFor(d, c, room, used, f);
      Fits(b) && Inside(b, |c|) && (!Bare(b) ==> used + |EncodeBlock(b)| <= room)
  {
    hide Varint, EncodeSpan, CString, InvoiceFits, EncodeInvoice;
    BehindType([], 4, [], room);
  }

  /** All stored blocks lie inside the content, and only plain ones are ever cut off. */
  lemma {:induction false} BlocksForFit(d: Decoders, c: Bytes, room: nat, used: nat, fs: seq<Find>)
    requires Sane(d) && AllWithin(fs, |c|) && |c| < U32 && used <= room
    ensures var bs := BlocksFor(d, c, room, used, fs);
      && AllFit(bs) && (forall i :: 0 <= i < |bs| ==> Inside(bs[i], |c|))
      && CutsBare(bs, Least(|EncodeBlocks(bs)|, room - used))
    decreases |fs|
  {
    hide Sane, Within, BlockFor, EncodeBlock, Fits, Inside, Bare;
    if fs != [] {
      BlockForFits(d, c, room, used, fs[0]);
      var b := BlockFor(d, c, room, used, fs[0]);
      BlocksForFit(d, c, room, Least(room, used + |EncodeBlock(b)|), fs[1..]);
      var bs, rest := BlocksFor(d, c, room, used, fs), BlocksFor(d, c, room, Least(room, used + |EncodeBlock(b)|), fs[1..]);
      assert bs == [b] + rest && bs[1..] == rest;
    }
  }

  /** Whatever the content and the buffer: a row that is made is one that
      `ndb_stored_blocks_ok` accepts, and iterating it delivers its blocks, in order, up
      to the first that was cut off or does not read back. */
  lemma ParsedRowIsStored(d: Decoders, c: Bytes, bufSize: nat)
    requires Sane(d) && |c| < U32 && bufSize >= HEADER
    ensures var blocks := Encoded(d, c, bufSize);
      && IsStored(StoredRow(blocks, HEADER + |blocks| + Pad(HEADER + |blocks|)), HEADER + |blocks| + Pad(HEADER + |blocks|), |c|)
      && IterateFrom(blocks, 0) == Delivered(Stored(d, c, bufSize - HEADER), |blocks|)
  {
    hide Sane, Within, Fits, Inside, EncodeBlocks, BlocksFor, CutsBare, IterateFrom, Finds;
    var room := bufSize - HEADER;
    FindsWithin(c);
    var bs, blocks := Stored(d, c, room), Encoded(d, c, bufSize);
    BlocksForFit(d, c, room, 0, Finds(c));
    assert blocks == EncodeBlocks(bs)[..|blocks|];
    IterateDelivers(bs, |blocks|);
    assert forall i :: 0 <= i < |IterateFrom(blocks, 0)| ==> IterateFrom(blocks, 0)[i] == bs[i];
  }

  /** The iterator gives back every block stored if and only if all fit the buffer and
      read back; what does not is a mention with malformed data, or an invoice with a
      hash that comes last. */
  lemma AllBlocksIterateIff(d: Decoders, c: Bytes, bufSize: nat)
    requires Sane(d) && |c| < U32 && bufSize >= HEADER
    ensures var bs := Stored(d, c, bufSize - HEADER);
      IterateFrom(Encoded(d, c, bufSize), 0) == bs
      <==> HEADER + |EncodeBlocks(bs)| <= bufSize && AllReadBack(bs)
  {
    hide Sane, EncodeBlocks, BlocksFor, IterateFrom, Finds, AllReadBack, Delivered;
    ParsedRowIsStored(d, c, bufSize);
    DeliversAllIff(Stored(d, c, bufSize - HEADER), |Encoded(d, c, bufSize)|);
  }

  function Ideals(d: Decoders, c: Bytes, fs: seq<Find>): (bs: seq<Block>)
    requires forall i :: 0 <= i < |fs| ==> Within(fs[i], |c|)
    ensures |bs| == |fs|
  {
    if fs == [] then [] else [Ideal(d, c, fs[0])] + Ideals(d, c, fs[1..])
  }

  lemma IdealNeeds(d: Decoders, c: Bytes, f: Find)
    requires Within(f, |c|)
    ensures Needs(Ideal(d, c, f)) <= |EncodeBlock(Ideal(d, c, f))| + 2 * |c|
  {
    hide Varint, EncodeSpan, CString, EncodeInvoice;
    BehindType([], 4, [], 1);
  }

  lemma {:induction false} RoomyBlocks(d: Decoders, c: Bytes, room: nat, used: nat, fs: seq<Find>)
    requires AllWithin(fs, |c|) && used + |EncodeBlocks(Ideals(d, c, fs))| + 2 * |c| <= room
    ensures BlocksFor(d, c, room, used, fs) == Ideals(d, c, fs)
    decreases |fs|
  {
    hide Within, EncodeBlock, Ideal, Needs;
    if fs != [] {
      IdealNeeds(d, c, fs[0]);
      assert Ideals(d, c, fs)[1..] == Ideals(d, c, fs[1..]);
      RoomyBlocks(d, c, room, used + |EncodeBlock(Ideal(d, c, fs[0]))|, fs[1..]);
    }
  }

  /** With room for the encoding, for twice the content while mentions are decoded, and
      for padding, parsing succeeds and stores every find as what it decodes to. */
  lemma EnoughRoom(d: Decoders, c: Bytes, bufSize: nat)
    requires HEADER + |EncodeBlocks(Ideals(d, c, Finds(c)))| + 2 * |c| + 8 <= bufSize
    ensures Stored(d, c, bufSize - HEADER) == Ideals(d, c, Finds(c))
    ensures Encoded(d, c, bufSize) == EncodeBlocks(Ideals(d, c, Finds(c)))
    ensures Aligns(|Encoded(d, c, bufSize)|, bufSize)
  {
    hide Finds, Within, EncodeBlocks, BlocksFor, Ideals;
    FindsWithin(c);
    RoomyBlocks(d, c, bufSize - HEADER, 0, Finds(c));
  }

  /** What is cut off goes unnoticed: in a buffer that only holds the header, parsing the
      content "A" succeeds, and the row has none of it. */
  lemma CutOffUnnoticed(d: Decoders)
    ensures var c, bufSize := [65], HEADER;
      && Aligns(|Encoded(d, c, bufSize)|, bufSize) && Encoded(d, c, bufSize) == []
      && Stored(d, c, 0) == [Text(0, 1)]
  {
    var c := [65];
    assert Turn(c, 0) == Scan(None, 1);
    assert Finds(c) == TextOf(0, 1) == [Plain(Text(0, 1))];
    assert Finds(c)[1..] == [];
  }
}
