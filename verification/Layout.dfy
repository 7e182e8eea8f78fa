/** The packed note: tags and content in one buffer, their strings in a table
    (the builder, `ndb_builder_finalize` and the tag iterator of src/nostrdb.c). */
module Layout {
  import opened Notes

  type Bytes = seq<nat>

  const STR := 1
  const ID := 2

  /** A packed string: three bytes in place and a flag, or a 24-bit offset. */
  type Packed = p: Bytes | |p| == 4 witness [0, 0, 0, 0]

  // ---- the strings table ----

  /** At `off` stands the C string `chars`. */
  ghost predicate HasString(strings: Bytes, off: nat, chars: Bytes)
  {
    && off + |chars| < |strings| && strings[off..off + |chars|] == chars
    && strings[off + |chars|] == 0 && 0 !in chars
  }

  ghost predicate HasId(strings: Bytes, off: nat, id: Id)
  {
    off + 32 <= |strings| && strings[off..off + 32] == id
  }

  /** `p` stands for element `e`, given the strings table. */
  ghost predicate Stands(strings: Bytes, p: Packed, e: TagElem)
  {
    match e
    case Str(chars) =>
      || (p[3] == STR && |chars| <= 2 && p[..|chars|] == chars && p[|chars|] == 0 && 0 !in chars)
      || (p[3] == 0 && HasString(strings, FromBytes(p[..3]), chars))
    case PackedId(id) => p[3] == ID && HasId(strings, FromBytes(p[..3]), id)
  }

  ghost predicate AllStand(strings: Bytes, ps: seq<Packed>, t: Tag)
  {
    |ps| == |t| && forall j :: 0 <= j < |ps| ==> Stands(strings, ps[j], t[j])
  }

  ghost predicate TagsStand(strings: Bytes, pss: seq<seq<Packed>>, ts: seq<Tag>)
  {
    |pss| == |ts| && forall i :: 0 <= i < |pss| ==> AllStand(strings, pss[i], ts[i])
  }

  /** The four bytes, by the last of them: 1 for up to two characters in place, ended by a
      NUL; 2 for the offset of an id, 0 for that of a C string, lowest byte first. */
  lemma StandsIff(strings: Bytes, p: Packed, e: TagElem)
    ensures var off := p[0] + 256 * p[1] + 65536 * p[2];
      Stands(strings, p, e) <==>
        || (p[3] == 1 && e.Str? && 0 !in e.chars
            && ((e.chars == [] && p[0] == 0) || (e.chars == [p[0]] && p[1] == 0) || (e.chars == [p[0], p[1]] && p[2] == 0)))
        || (p[3] == 0 && e.Str? && 0 !in e.chars && off + |e.chars| < |strings|
            && strings[off..off + |e.chars| + 1] == e.chars + [0])
        || (p[3] == 2 && e.PackedId? && off + 32 <= |strings| && strings[off..off + 32] == e.id)
  {
    OffsetIs(p);
    var off := p[0] + 256 * p[1] + 65536 * p[2];
    match e {
      case Str(chars) =>
        InPlaceIff(p, chars);
        if off + |chars| < |strings| { EndedIff(strings, off, chars); }
      case PackedId(id) =>
    }
  }

  lemma OffsetIs(p: Packed)
    ensures FromBytes(p[..3]) == p[0] + 256 * p[1] + 65536 * p[2]
  {
    var b, b', b'' := p[..3], [p[1], p[2]], [p[2]];
    assert b[1..] == b' && b'[1..] == b'' && b''[1..] == [];
    assert FromBytes(b'') == p[2] && FromBytes(b') == p[1] + 256 * p[2];
  }

  lemma InPlaceIff(p: Packed, chars: Bytes)
    ensures |chars| <= 2 && p[..|chars|] == chars && p[|chars|] == 0
       <==> (chars == [] && p[0] == 0) || (chars == [p[0]] && p[1] == 0) || (chars == [p[0], p[1]] && p[2] == 0)
  {
    assert p[..0] == [] && p[..1] == [p[0]] && p[..2] == [p[0], p[1]];
  }

  lemma EndedIff(strings: Bytes, off: nat, chars: Bytes)
    requires off + |chars| < |strings|
    ensures strings[off..off + |chars|] == chars && strings[off + |chars|] == 0
       <==> strings[off..off + |chars| + 1] == chars + [0]
  {
    var s := strings[off..off + |chars| + 1];
    assert s == strings[off..off + |chars|] + [strings[off + |chars|]];
    assert s[..|chars|] == strings[off..off + |chars|] && s[|chars|] == strings[off + |chars|];
    assert (chars + [0])[..|chars|] == chars && (chars + [0])[|chars|] == 0;
  }

  /** A longer table still has what it had. */
  lemma StandsLonger(strings: Bytes, more: Bytes, p: Packed, e: TagElem)
    ensures Stands(strings, p, e) ==> Stands(strings + more, p, e)
  {
    if Stands(strings, p, e) && p[3] != STR {
      var off := FromBytes(p[..3]);
      var n := if e.Str? then |e.chars| else 32;
      assert off + n <= |strings| ==> (strings + more)[off..off + n] == strings[off..off + n];
    }
  }

  lemma TagsStandLonger(strings: Bytes, more: Bytes, pss: seq<seq<Packed>>, ts: seq<Tag>)
    ensures TagsStand(strings, pss, ts) ==> TagsStand(strings + more, pss, ts)
  {
    forall i, j | 0 <= i < |pss| == |ts| && 0 <= j < |pss[i]| == |ts[i]|
      ensures Stands(strings, pss[i][j], ts[i][j]) ==> Stands(strings + more, pss[i][j], ts[i][j])
    {
      StandsLonger(strings, more, pss[i][j], ts[i][j]);
    }
  }

  /** What `ndb_note_str` reads through a packed string: the table is read up to a
      terminator, or 32 bytes of it. */
  function Read(table: Bytes, p: Packed): TagElem
  {
    var off := FromBytes(p[..3]);
    if p[3] == STR then Str(CString(p[..3]))
    else if p[3] == ID && off + 32 <= |table| then PackedId(table[off..off + 32])
    else if off <= |table| then Str(CString(table[off..]))
    else Str([])
  }

  lemma {:induction false} CStringIs(s: Bytes, chars: Bytes)
    requires |chars| < |s| && s[..|chars|] == chars && s[|chars|] == 0 && 0 !in chars
    ensures CString(s) == chars
    decreases |chars|
  {
    if chars != [] {
      assert s[..|chars|][0] == s[0] && chars[0] in chars;
      assert s[1..][..|chars| - 1] == s[..|chars|][1..];
      CStringIs(s[1..], chars[1..]);
    }
  }

  /** Reading gives back the element, whatever follows the table. */
  lemma ReadsBack(strings: Bytes, after: Bytes, p: Packed, e: TagElem)
    requires Stands(strings, p, e)
    ensures Read(strings + after, p) == e
  {
    var table, off := strings + after, FromBytes(p[..3]);
    if p[3] == STR {
      var n := |e.chars|;
      assert p[..3][..n] == p[..n];
      if n < 3 { CStringIs(p[..3], e.chars); }
    } else if e.Str? {
      var n := |e.chars|;
      assert table[off..][..n] == strings[off..off + n];
      CStringIs(table[off..], e.chars);
    } else {
      assert table[off..off + 32] == strings[off..off + 32];
    }
  }

  // ---- the tags, encoded ----

  function Flat(ps: seq<Packed>): (b: Bytes)
    ensures |b| == 4 * |ps|
  {
    if ps == [] then [] else ps[0] + Flat(ps[1..])
  }

  /** A 16-bit count and the packed strings. */
  function EncodeTag(ps: seq<Packed>): (b: Bytes)
    ensures |b| == 2 + 4 * |ps|
  {
    ToBytes(|ps|, 2) + Flat(ps)
  }

  function EncodeTags(pss: seq<seq<Packed>>): Bytes
  {
    if pss == [] then [] else EncodeTag(pss[0]) + EncodeTags(pss[1..])
  }

  lemma {:induction false} FlatSnoc(ps: seq<Packed>, p: Packed)
    ensures Flat(ps + [p]) == Flat(ps) + p
  {
    if ps == [] {
      assert [p][1..] == [] && [] + [p] == [p];
    } else {
      FlatSnoc(ps[1..], p);
      assert (ps + [p])[1..] == ps[1..] + [p];
    }
  }

  lemma {:induction false} FlatAt(ps: seq<Packed>, j: nat)
    requires j < |ps|
    ensures Flat(ps)[4 * j..4 * j + 4] == ps[j]
    decreases |ps|
  {
    if j > 0 {
      FlatAt(ps[1..], j - 1);
      assert Flat(ps)[4 * j..4 * j + 4] == Flat(ps[1..])[4 * (j - 1)..4 * (j - 1) + 4];
    }
  }

  lemma {:induction false} EncodeSnoc(pss: seq<seq<Packed>>, ps: seq<Packed>)
    ensures EncodeTags(pss + [ps]) == EncodeTags(pss) + EncodeTag(ps)
  {
    if pss == [] {
      assert [ps][1..] == [] && [] + [ps] == [ps];
    } else {
      EncodeSnoc(pss[1..], ps);
      assert (pss + [ps])[1..] == pss[1..] + [ps];
    }
  }

  /** Where tag `i` starts. */
  function TagAt(pss: seq<seq<Packed>>, i: nat): nat
    requires i <= |pss|
  {
    if i == 0 then 0 else |EncodeTag(pss[0])| + TagAt(pss[1..], i - 1)
  }

  lemma {:induction false} TagIsAt(pss: seq<seq<Packed>>, i: nat)
    requires i < |pss|
    ensures TagAt(pss, i) + |EncodeTag(pss[i])| == TagAt(pss, i + 1) <= |EncodeTags(pss)|
    ensures EncodeTags(pss)[TagAt(pss, i)..TagAt(pss, i + 1)] == EncodeTag(pss[i])
    decreases |pss|
  {
    if i > 0 {
      TagIsAt(pss[1..], i - 1);
      var a, b, n := TagAt(pss[1..], i - 1), TagAt(pss[1..], i), |EncodeTag(pss[0])|;
      assert EncodeTags(pss)[n + a..n + b] == EncodeTags(pss[1..])[a..b];
    } else {
      assert TagAt(pss[1..], 0) == 0;
    }
  }

  // ---- pushed elements ----

  function HexValue(c: nat): (v: nat)
    ensures v < 16
  {
    if 48 <= c <= 57 then c - 48 else if 97 <= c <= 102 then c - 87 else if 65 <= c <= 70 then c - 55 else 0
  }

  predicate IsHexDigit(c: nat)
  {
    48 <= c <= 57 || 97 <= c <= 102 || 65 <= c <= 70
  }

  predicate IsHexId(s: Bytes)
  {
    |s| == 64 && forall i :: 0 <= i < 64 ==> IsHexDigit(s[i])
  }

  function DecodeHex(s: Bytes): (b: Bytes)
    requires |s| % 2 == 0
    ensures |b| == |s| / 2
  {
    if s == [] then [] else [16 * HexValue(s[0]) + HexValue(s[1])] + DecodeHex(s[2..])
  }

  /** The element a string is pushed as: an id, if it may be one and there is room for one. */
  function Pushed(str: Bytes, packIds: bool, idFits: bool): TagElem
  {
    if packIds && IsHexId(str) && idFits then PackedId(DecodeHex(str)) else Str(str)
  }

  // ---- reading a note ----

  // A note in memory: where its tags start, how many there are, where its strings
  // table is, and its packed content.
  datatype PackedNote = PackedNote(bytes: Bytes, tagsAt: nat, count: nat, strings: nat, content: Packed)

  /** The note's bytes encode the tags `ts`, by way of `pss` and the table `table`. */
  ghost predicate Encodes(v: PackedNote, pss: seq<seq<Packed>>, table: Bytes, ts: seq<Tag>)
  {
    && v.count == |pss| && TagsStand(table, pss, ts)
    && (forall i :: 0 <= i < |pss| ==> |pss[i]| < 0x1_0000)
    && v.tagsAt + |EncodeTags(pss)| <= |v.bytes|
    && v.bytes[v.tagsAt..v.tagsAt + |EncodeTags(pss)|] == EncodeTags(pss)
    && v.strings + |table| <= |v.bytes|
    && v.bytes[v.strings..v.strings + |table|] == table
  }

  lemma TableSplits(v: PackedNote, pss: seq<seq<Packed>>, table: Bytes, ts: seq<Tag>)
    requires Encodes(v, pss, table, ts)
    ensures v.strings <= |v.bytes| && v.bytes[v.strings..] == table + v.bytes[v.strings + |table|..]
  {
    assert v.bytes[v.strings..][..|table|] == table;
  }

  /** Tag `i` in memory: its count, then its packed strings. */
  lemma TagInMemory(v: PackedNote, pss: seq<seq<Packed>>, table: Bytes, ts: seq<Tag>, i: nat)
    requires Encodes(v, pss, table, ts) && i < |pss|
    ensures var p, n := v.tagsAt + TagAt(pss, i), |pss[i]|;
      && p + 2 + 4 * n <= |v.bytes| && FromBytes(v.bytes[p..p + 2]) == n
      && v.tagsAt + TagAt(pss, i + 1) == p + 2 + 4 * n
      && v.bytes[p + 2..p + 2 + 4 * n] == Flat(pss[i])
  {
    hide TagsStand, EncodeTags, TagAt, Flat;
    TagIsAt(pss, i);
    var a, b, p := TagAt(pss, i), TagAt(pss, i + 1), v.tagsAt + TagAt(pss, i);
    var e := EncodeTag(pss[i]);
    SubSlice(v.bytes, v.tagsAt, v.tagsAt + |EncodeTags(pss)|, a, b);
    SubSlice(v.bytes, p, p + |e|, 0, 2);
    SubSlice(v.bytes, p, p + |e|, 2, |e|);
    Halves(ToBytes(|pss[i]|, 2), Flat(pss[i]));
    assert Pow256(2) == 0x1_0000;
    FromToBytes(|pss[i]|, 2);
  }

  lemma SubSlice(b: Bytes, lo: nat, hi: nat, x: nat, y: nat)
    requires x <= y && lo + y <= hi <= |b|
    ensures b[lo..hi][x..y] == b[lo + x..lo + y]
  {
    forall k | 0 <= k < y - x ensures b[lo..hi][x..y][k] == b[lo + x..lo + y][k] {
    }
  }

  lemma Halves(a: Bytes, b: Bytes)
    ensures (a + b)[0..|a|] == a && (a + b)[|a|..|a| + |b|] == b
  {
  }

  lemma ElemBytes(v: PackedNote, pss: seq<seq<Packed>>, table: Bytes, ts: seq<Tag>, i: nat, j: nat)
    requires Encodes(v, pss, table, ts) && i < |pss| && j < |pss[i]|
    ensures var p := v.tagsAt + TagAt(pss, i) + 2 + 4 * j;
      p + 4 <= |v.bytes| && v.bytes[p..p + 4] == pss[i][j]
  {
    hide Encodes, TagAt, EncodeTags, Flat;
    TagInMemory(v, pss, table, ts, i);
    FlatAt(pss[i], j);
    SubSlice(v.bytes, v.tagsAt + TagAt(pss, i) + 2, v.tagsAt + TagAt(pss, i) + 2 + 4 * |pss[i]|, 4 * j, 4 * j + 4);
  }

  /** Element `j` of tag `i`, as `ndb_tag_str` reads it. */
  lemma ElemInMemory(v: PackedNote, pss: seq<seq<Packed>>, table: Bytes, ts: seq<Tag>, i: nat, j: nat)
    requires Encodes(v, pss, table, ts) && i < |pss| && j < |pss[i]|
    ensures var p := v.tagsAt + TagAt(pss, i) + 2 + 4 * j;
      && p + 4 <= |v.bytes| && i < |ts| && j < |ts[i]| && v.strings <= |v.bytes|
      && Read(v.bytes[v.strings..], v.bytes[p..p + 4]) == ts[i][j]
  {
    assert AllStand(table, pss[i], ts[i]) && Stands(table, pss[i][j], ts[i][j]);
    ElemBytes(v, pss, table, ts, i, j);
    TableSplits(v, pss, table, ts);
    hide TagsStand, AllStand, Stands, Read, Encodes, TagAt;
    ReadsBack(table, v.bytes[v.strings + |table|..], pss[i][j], ts[i][j]);
  }

  /** `ndb_tags_iterate_next` and `ndb_tag_str` over a whole note. */
  method ReadTags(v: PackedNote, ghost pss: seq<seq<Packed>>, ghost table: Bytes, ghost ts: seq<Tag>)
    returns (tags: seq<Tag>)
    requires Encodes(v, pss, table, ts)
    ensures tags == ts
  {
    hide Encodes, Read, EncodeTags, TagAt;
    CountOf(v, pss, table, ts);
    tags := [];
    var p, i := v.tagsAt, 0;
    TagAtZero(pss);
    while i < v.count
      invariant 0 <= i <= v.count && p == v.tagsAt + TagAt(pss, i)
      invariant tags == ts[..i]
    {
      TagInMemory(v, pss, table, ts, i);
      var n := FromBytes(v.bytes[p..p + 2]);
      var tag := ReadTag(v, p, n, pss, table, ts, i);
      tags := tags + [tag];
      p := p + 2 + 4 * n;
      i := i + 1;
    }
  }

  lemma CountOf(v: PackedNote, pss: seq<seq<Packed>>, table: Bytes, ts: seq<Tag>)
    requires Encodes(v, pss, table, ts)
    ensures v.count == |pss| == |ts| && forall i :: 0 <= i < |pss| ==> |pss[i]| == |ts[i]|
  {
    assert forall i :: 0 <= i < |pss| ==> AllStand(table, pss[i], ts[i]);
  }

  lemma TagAtZero(pss: seq<seq<Packed>>)
    ensures TagAt(pss, 0) == 0
  {
  }

  method ReadTag(v: PackedNote, p: nat, n: nat, ghost pss: seq<seq<Packed>>, ghost table: Bytes, ghost ts: seq<Tag>, ghost i: nat)
    returns (tag: Tag)
    requires Encodes(v, pss, table, ts) && i < |pss| && p == v.tagsAt + TagAt(pss, i) && n == |pss[i]|
    ensures i < |ts| && tag == ts[i]
  {
    hide Encodes, Read, EncodeTags, TagAt;
    CountOf(v, pss, table, ts);
    tag := [];
    var j := 0;
    while j < n
      invariant 0 <= j <= n && tag == ts[i][..j]
    {
      ElemInMemory(v, pss, table, ts, i, j);
      var at := p + 2 + 4 * j;
      tag := tag + [Read(v.bytes[v.strings..], v.bytes[at..at + 4])];
      j := j + 1;
    }
  }

  // ---- the builder ----

  /** One more element for the last tag. */
  function Extended(pss: seq<seq<Packed>>, p: Packed): seq<seq<Packed>>
    requires pss != []
  {
    pss[..|pss| - 1] + [pss[|pss| - 1] + [p]]
  }

  function ExtendedTags(ts: seq<Tag>, e: TagElem): seq<Tag>
    requires ts != []
  {
    ts[..|ts| - 1] + [ts[|ts| - 1] + [e]]
  }

  lemma ExtendedStands(strings: Bytes, pss: seq<seq<Packed>>, ts: seq<Tag>, p: Packed, e: TagElem)
    requires TagsStand(strings, pss, ts) && pss != [] && Stands(strings, p, e)
    ensures TagsStand(strings, Extended(pss, p), ExtendedTags(ts, e))
  {
    hide Stands;
    var pss', ts' := Extended(pss, p), ExtendedTags(ts, e);
    forall i | 0 <= i < |pss'| ensures AllStand(strings, pss'[i], ts'[i]) {
      assert AllStand(strings, pss[i], ts[i]);
    }
  }

  /** Raising the last tag's count and appending four bytes encodes one more element. */
  lemma ExtendedEncodes(pss: seq<seq<Packed>>, p: Packed)
    requires pss != []
    ensures var was, last := EncodeTags(pss), pss[|pss| - 1]; var at := |was| - |EncodeTag(last)|;
      && 0 <= at <= at + 2 <= |was| && EncodeTags(Extended(pss, p)) == was[..at] + ToBytes(|last| + 1, 2) + was[at + 2..] + p
      && was[at..at + 2] == ToBytes(|last|, 2)
  {
    hide EncodeTags, Flat, ToBytes;
    var init, last := pss[..|pss| - 1], pss[|pss| - 1];
    assert pss == init + [last];
    EncodeSnoc(init, last);
    EncodeSnoc(init, last + [p]);
    FlatSnoc(last, p);
    LastEncodes(EncodeTags(init), ToBytes(|last|, 2), Flat(last), ToBytes(|last| + 1, 2), p);
  }

  lemma LastEncodes(head: Bytes, count: Bytes, flat: Bytes, count': Bytes, p: Bytes)
    ensures var was := head + (count + flat); var n := |head| + |count|;
      was[..|head|] + count' + was[n..] + p == head + (count' + (flat + p)) && was[|head|..n] == count
  {
    var was := head + (count + flat);
    assert was[..|head|] == head && was[|head| + |count|..] == flat;
  }

  /** The bytes `b` stand at `pos`, byte for byte. */
  ghost predicate Standing(m: Bytes, pos: nat, b: Bytes)
  {
    pos + |b| <= |m| && forall k :: 0 <= k < |b| ==> m[pos + k] == b[k]
  }

  class Builder {
    const mem: array<nat>
    const tagsAt: nat         // behind the note's header
    const noteCap: nat        // the end of the note's slice
    const stringsAt: nat      // the strings slice
    const stringsCap: nat
    const indicesCap: nat     // how many string offsets the cache holds
    var noteEnd: nat
    var stringsEnd: nat
    var indices: seq<nat>
    var tagCount: nat
    var currentTag: nat
    var content: Packed
    ghost var packed: seq<seq<Packed>>
    ghost var tags: seq<Tag>
    ghost var hasContent: bool
    ghost var text: Bytes

    function Strings(): Bytes
      requires stringsAt <= stringsEnd <= mem.Length
      reads this, mem
    {
      mem[stringsAt..stringsEnd]
    }

    /** The slices do not meet, and offsets fit 24 bits. */
    ghost predicate Shaped()
      reads this
    {
      && tagsAt <= noteEnd <= noteCap <= stringsAt <= stringsEnd <= stringsCap <= mem.Length
      && stringsCap - stringsAt <= 0x100_0000
    }

    ghost predicate Valid()
      reads this, mem
    {
      && Shaped()
      && noteEnd == tagsAt + |EncodeTags(packed)| && Standing(mem[..], tagsAt, EncodeTags(packed))
      && tagCount == |packed| && TagsStand(Strings(), packed, tags)
      && (forall i :: 0 <= i < |packed| ==> |packed[i]| < 0x1_0000)
      && (packed != [] ==> currentTag + |EncodeTag(packed[|packed| - 1])| == noteEnd)
      && (forall k :: 0 <= k < |indices| ==> indices[k] <= stringsEnd - stringsAt)
      && (hasContent ==> Stands(Strings(), content, Str(text)))
    }

    /** `ndb_builder_init` */
    constructor (buf: array<nat>, header: nat, half: nat, cache: nat)
      requires header <= half && 2 * half <= buf.Length && half <= 0x100_0000
      ensures Valid() && mem == buf && tagsAt == header && tags == [] && !hasContent
      ensures noteCap == stringsAt == half && stringsCap == 2 * half
    {
      mem, tagsAt, noteCap, stringsAt, stringsCap, indicesCap := buf, header, half, half, 2 * half, cache;
      noteEnd, stringsEnd, indices, tagCount, currentTag, content := header, half, [], 0, header, [0, 0, 0, 0];
      packed, tags, hasContent, text := [], [], false, [];
    }

    method Put(at: nat, data: Bytes)
      requires at + |data| <= mem.Length
      modifies mem
      ensures forall i :: 0 <= i < mem.Length ==> mem[i] == if at <= i < at + |data| then data[i - at] else old(mem[i])
    {
      forall i | 0 <= i < |data| {
        mem[at + i] := data[i];
      }
    }

    /** `ndb_builder_find_str` */
    method FindStr(str: Bytes) returns (found: bool, off: nat)
      requires Valid() && 0 !in str
      ensures found ==> off <= stringsEnd - stringsAt && HasString(Strings(), off, str)
    {
      var i := 0;
      while i < |indices|
        invariant 0 <= i <= |indices|
      {
        off := indices[i];
        // memcmp may run on past the strings, but a terminator stops the match first
        if stringsAt + off + |str| < stringsEnd && mem[stringsAt + off..stringsAt + off + |str|] == str
           && mem[stringsAt + off + |str|] == 0
        {
          SubSlice(mem[..], stringsAt, stringsEnd, off, off + |str|);
          return true, off;
        }
        i := i + 1;
      }
      return false, 0;
    }

    /** `cursor_push` onto the strings slice. */
    method AppendStrings(data: Bytes)
      requires Valid() && stringsEnd + |data| <= stringsCap
      modifies mem, this`stringsEnd
      ensures Valid() && Strings() == old(Strings()) + data
    {
      hide TagsStand, Stands, EncodeTags;
      ghost var strings := Strings();
      TagsStandLonger(strings, data, packed, tags);
      StandsLonger(strings, data, content, Str(text));
      Put(stringsEnd, data);
      stringsEnd := stringsEnd + |data|;
      assert Strings() == strings + data;
    }

    /** `ndb_builder_push_str`. When only the terminator does not fit, the characters
        stay behind unused. */
    method PushStr(str: Bytes) returns (ok: bool, off: nat)
      requires Valid()
      modifies mem, this`stringsEnd, this`indices
      ensures Valid()
      ensures ok <==> old(stringsEnd) + |str| + 1 <= stringsCap
      ensures ok ==> off < 0x100_0000 && off + |str| + 1 <= |Strings()|
      ensures ok ==> Strings()[off..off + |str|] == str && Strings()[off + |str|] == 0
    {
      hide TagsStand, Stands, EncodeTags;
      off := stringsEnd - stringsAt;
      if stringsEnd + |str| > stringsCap {
        return false, 0;
      }
      AppendStrings(str);
      if stringsEnd + 1 > stringsCap {
        return false, 0;
      }
      AppendStrings([0]);
      if |indices| < indicesCap {
        indices := indices + [off];
      }
      ok := true;
    }

    /** `ndb_builder_push_packed_id` */
    method PushPackedId(id: Id) returns (ok: bool, p: Packed)
      requires Valid()
      modifies mem, this`stringsEnd, this`indices
      ensures Valid()
      ensures ok <==> old(stringsEnd) + 33 <= stringsCap
      ensures ok ==> Stands(Strings(), p, PackedId(id))
    {
      hide TagsStand;
      var off;
      ok, off := PushStr(id);
      p := Offset(if ok then off else 0, ID);
      OffsetReads(if ok then off else 0, ID);
    }

    /** `ndb_builder_make_str`. An id that does not fit may still be there as a string. */
    method MakeStr(str: Bytes, packIds: bool) returns (ok: bool, p: Packed)
      requires Valid() && 0 !in str
      modifies mem, this`stringsEnd, this`indices
      ensures Valid()
      ensures old(stringsEnd) + |str| + 1 <= stringsCap ==> ok
      ensures ok ==> Stands(Strings(), p, Pushed(str, packIds, old(stringsEnd) + 33 <= stringsCap))
    {
      hide TagsStand;
      p := [0, 0, 0, STR];
      if |str| <= 2 {
        p := if |str| == 0 then [0, 0, 0, STR] else if |str| == 1 then [str[0], 0, 0, STR] else [str[0], str[1], 0, STR];
        assert p[..|str|] == str;
        return true, p;
      }
      if packIds && IsHexId(str) {
        ok, p := PushPackedId(DecodeHex(str));
        if ok {
          return;
        }
      }
      var found, off := FindStr(str);
      ok := true;
      if !found {
        ok, off := PushStr(str);
      }
      if ok {
        p := Offset(off, 0);
        OffsetReads(off, 0);
      }
    }

    /** `ndb_builder_new_tag`: counted before it is known to fit. */
    method NewTag() returns (ok: bool)
      requires Valid() && tagCount + 1 < 0x1_0000
      modifies this, mem
      ensures ok <==> old(noteEnd) + 2 <= noteCap
      ensures ok ==> Valid() && tags == old(tags) + [[]] && Strings() == old(Strings())
      ensures hasContent == old(hasContent) && text == old(text)
    {
      hide TagsStand, Stands, EncodeTags;
      tagCount := tagCount + 1;
      currentTag := noteEnd;
      if noteEnd + 2 > noteCap {
        return false;
      }
      Put(noteEnd, ToBytes(0, 2));
      noteEnd := noteEnd + 2;
      assert Strings() == old(Strings());
      EncodeSnoc(packed, []);
      NewTagStands(Strings(), packed, tags);
      packed, tags := packed + [[]], tags + [[]];
      ok := true;
    }

    /** Append four bytes to the last tag and raise its count. */
    method PushPacked(p: Packed)
      requires Valid() && packed != [] && |packed[|packed| - 1]| + 1 < 0x1_0000 && noteEnd + 4 <= noteCap
      modifies mem, this`noteEnd
      ensures Shaped() && Strings() == old(Strings()) && noteEnd == old(noteEnd) + 4
      ensures Standing(mem[..], tagsAt, EncodeTags(Extended(packed, p)))
      ensures |EncodeTags(Extended(packed, p))| == |EncodeTags(packed)| + 4
    {
      hide TagsStand, Stands, EncodeTags, Flat, ToBytes, FromBytes, Extended;
      ghost var was, end, n := mem[..], noteEnd, |packed[|packed| - 1]|;
      ExtendedEncodes(packed, p);
      Put(noteEnd, p);
      noteEnd := noteEnd + 4;
      CountInMemory(mem[..], tagsAt, currentTag, EncodeTags(packed), n);
      var count := FromBytes(mem[currentTag..currentTag + 2]);
      Put(currentTag, ToBytes(count + 1, 2));
      Counted(was, mem[..], tagsAt, end, currentTag, ToBytes(n + 1, 2), p, EncodeTags(packed));
      assert Strings() == old(Strings());
    }

    /** `ndb_builder_finalize_tag` */
    method FinalizeTag(p: Packed, ghost e: TagElem) returns (ok: bool)
      requires Valid() && packed != [] && |packed[|packed| - 1]| + 1 < 0x1_0000
      requires Stands(Strings(), p, e)
      modifies mem, this`noteEnd, this`packed, this`tags
      ensures Valid() && Strings() == old(Strings())
      ensures ok <==> old(noteEnd) + 4 <= noteCap
      ensures tags == if ok then ExtendedTags(old(tags), e) else old(tags)
    {
      hide TagsStand, Stands, EncodeTags, Flat, ToBytes, Extended, ExtendedTags;
      ok := noteEnd + 4 <= noteCap;
      if ok {
        ExtendedIsValid(Strings(), packed, tags, p, e);
        PushPacked(p);
        packed, tags := Extended(packed, p), ExtendedTags(tags, e);
      }
    }

    /** `ndb_builder_push_tag_str`; needs an open tag. */
    method PushTagStr(str: Bytes) returns (ok: bool)
      requires Valid() && packed != [] && |packed[|packed| - 1]| + 1 < 0x1_0000 && 0 !in str
      modifies this, mem
      ensures Valid() && hasContent == old(hasContent) && text == old(text)
      ensures tags == if ok then ExtendedTags(old(tags), Pushed(str, true, old(stringsEnd) + 33 <= stringsCap)) else old(tags)
      ensures old(stringsEnd) + |str| + 1 <= stringsCap && old(noteEnd) + 4 <= noteCap ==> ok
    {
      hide TagsStand, Stands, EncodeTags, Pushed, ExtendedTags;
      var p;
      ghost var elem := Pushed(str, true, stringsEnd + 33 <= stringsCap);
      ok, p := MakeStr(str, true);
      if ok {
        ok := FinalizeTag(p, elem);
      }
    }

    /** `ndb_builder_push_tag_id` */
    method PushTagId(id: Id) returns (ok: bool)
      requires Valid() && packed != [] && |packed[|packed| - 1]| + 1 < 0x1_0000
      modifies this, mem
      ensures Valid() && hasContent == old(hasContent) && text == old(text)
      ensures tags == if ok then ExtendedTags(old(tags), PackedId(id)) else old(tags)
      ensures ok <==> old(stringsEnd) + 33 <= stringsCap && old(noteEnd) + 4 <= noteCap
    {
      hide TagsStand, Stands, EncodeTags, ExtendedTags;
      var p;
      ok, p := PushPackedId(id);
      if ok {
        ok := FinalizeTag(p, PackedId(id));
      }
    }

    /** `ndb_builder_set_content` */
    method SetContent(str: Bytes) returns (ok: bool)
      requires Valid() && 0 !in str
      modifies this, mem
      ensures Valid() && tags == old(tags)
      ensures ok ==> hasContent && text == str
      ensures old(stringsEnd) + |str| + 1 <= stringsCap ==> ok
    {
      hide TagsStand, Stands, EncodeTags;
      var p;
      ok, p := MakeStr(str, false);
      if ok {
        content := p;
        hasContent, text := true, str;
      }
    }

    /** The note as it stands while being built. */
    function View(): PackedNote
      reads this, mem
    {
      PackedNote(mem[..], tagsAt, tagCount, stringsAt, content)
    }

    /** Before finalizing, the note reads back what was pushed. */
    lemma ViewEncodes()
      requires Valid()
      ensures Encodes(View(), packed, Strings(), tags)
      ensures hasContent ==> Read(mem[..][stringsAt..], content) == Str(text)
    {
      hide TagsStand, Stands, EncodeTags, Read, Encodes;
      assert Standing(mem[..], stringsAt, Strings());
      EncodesWhen(View(), packed, Strings(), tags);
      if hasContent { ContentReads(View(), Strings(), text); }
    }

    /** `ndb_builder_finalize`: the strings table moves up behind the tags, and the
        note reads back what was pushed. The size is rounded up to eight bytes. */
    method Finalize() returns (note: PackedNote, size: nat)
      requires Valid()
      modifies mem
      ensures Encodes(note, packed, old(Strings()), tags)
      ensures hasContent ==> Read(note.bytes[note.strings..], note.content) == Str(text)
      ensures note.bytes == mem[..] && note.strings == noteEnd
      ensures size % 8 == 0 && note.strings + |old(Strings())| <= size < note.strings + |old(Strings())| + 8
    {
      hide TagsStand, Stands, EncodeTags, Read, Encodes;
      var strings := Strings();
      ghost var tagged := EncodeTags(packed);
      Put(noteEnd, strings);
      note := PackedNote(mem[..], tagsAt, tagCount, noteEnd, content);
      size := (noteEnd + |strings| + 7) / 8 * 8;
      assert Standing(note.bytes, tagsAt, tagged) && Standing(note.bytes, noteEnd, strings);
      EncodesWhen(note, packed, strings, tags);
      if hasContent { ContentReads(note, strings, text); }
    }
  }

  lemma EncodesWhen(v: PackedNote, pss: seq<seq<Packed>>, table: Bytes, ts: seq<Tag>)
    requires v.count == |pss| && TagsStand(table, pss, ts) && forall i :: 0 <= i < |pss| ==> |pss[i]| < 0x1_0000
    requires Standing(v.bytes, v.tagsAt, EncodeTags(pss)) && Standing(v.bytes, v.strings, table)
    ensures Encodes(v, pss, table, ts)
  {
    hide TagsStand, EncodeTags;
    StandingSlice(v.bytes, v.tagsAt, EncodeTags(pss));
    StandingSlice(v.bytes, v.strings, table);
  }

  lemma ContentReads(v: PackedNote, table: Bytes, text: Bytes)
    requires Standing(v.bytes, v.strings, table) && Stands(table, v.content, Str(text))
    ensures v.strings <= |v.bytes| && Read(v.bytes[v.strings..], v.content) == Str(text)
  {
    hide Stands, Read;
    StandingSlice(v.bytes, v.strings, table);
    ReadsBack(table, v.bytes[v.strings + |table|..], v.content, Str(text));
  }

  lemma StandingSlice(m: Bytes, pos: nat, b: Bytes)
    requires Standing(m, pos, b)
    ensures pos + |b| <= |m| && m[pos..pos + |b|] == b && m[pos..] == b + m[pos + |b|..]
  {
  }

  lemma ExtendedIsValid(strings: Bytes, pss: seq<seq<Packed>>, ts: seq<Tag>, p: Packed, e: TagElem)
    requires TagsStand(strings, pss, ts) && pss != [] && Stands(strings, p, e)
    requires |pss[|pss| - 1]| + 1 < 0x1_0000 && forall i :: 0 <= i < |pss| ==> |pss[i]| < 0x1_0000
    ensures var pss' := Extended(pss, p);
      && ts != [] && TagsStand(strings, pss', ExtendedTags(ts, e)) && |pss'| == |pss|
      && (forall i :: 0 <= i < |pss'| ==> |pss'[i]| < 0x1_0000)
      && |pss'[|pss'| - 1]| == |pss[|pss| - 1]| + 1
  {
    ExtendedStands(strings, pss, ts, p, e);
  }

  lemma NewTagStands(strings: Bytes, pss: seq<seq<Packed>>, ts: seq<Tag>)
    requires TagsStand(strings, pss, ts)
    ensures TagsStand(strings, pss + [[]], ts + [[]])
  {
    forall i | 0 <= i <= |pss| ensures AllStand(strings, (pss + [[]])[i], (ts + [[]])[i]) {
      if i < |pss| { assert AllStand(strings, pss[i], ts[i]); }
    }
  }

  /** The last tag's count, read from memory. */
  lemma CountInMemory(m: Bytes, at: nat, current: nat, e: Bytes, n: nat)
    requires at <= current && current - at + 2 <= |e| && Standing(m, at, e)
    requires n < 0x1_0000 && e[current - at..current - at + 2] == ToBytes(n, 2)
    ensures FromBytes(m[current..current + 2]) == n
  {
    var b := e[current - at..current - at + 2];
    assert m[current] == e[current - at] == b[0] && m[current + 1] == e[current - at + 1] == b[1];
    assert m[current..current + 2] == b;
    assert Pow256(2) == 0x1_0000;
    FromToBytes(n, 2);
  }

  /** Four bytes appended and the count written over. */
  lemma Counted(was: Bytes, now: Bytes, at: nat, end: nat, current: nat, count: Bytes, p: Packed, e: Bytes)
    requires at <= current && current + 2 <= end == at + |e| && end + 4 <= |was| == |now| && |count| == 2
    requires Standing(was, at, e)
    requires forall i :: 0 <= i < |was| ==>
      now[i] == if current <= i < current + 2 then count[i - current] else if end <= i < end + 4 then p[i - end] else was[i]
    ensures Standing(now, at, e[..current - at] + count + e[current - at + 2..] + p)
  {
  }

  function Offset(loc: nat, flag: nat): Packed
  {
    ToBytes(loc, 3) + [flag]
  }

  lemma OffsetReads(loc: nat, flag: nat)
    requires loc < 0x100_0000
    ensures FromBytes(Offset(loc, flag)[..3]) == loc && Offset(loc, flag)[3] == flag
  {
    assert Offset(loc, flag)[..3] == ToBytes(loc, 3);
    assert Pow256(3) == 0x100_0000;
    FromToBytes(loc, 3);
  }
}
