/** The text an event id commits to (`ndb_event_commitment`). */
module Commitment {
  import opened Notes
  import Filters

  type Text = seq<nat>

  const QUOTE := 34
  const BACKSLASH := 92
  const COMMA := 44
  const OPEN := 91
  const CLOSE := 93
  const MINUS := 45

  // ---- characters and strings ----

  /** `cursor_push_escaped_char` */
  function Escaped(c: nat): (t: Text)
    ensures |t| == 1 || (|t| == 2 && t[0] == BACKSLASH)
  {
    if c == QUOTE then [BACKSLASH, QUOTE]
    else if c == BACKSLASH then [BACKSLASH, BACKSLASH]
    else if c == 8 then [BACKSLASH, 98]
    else if c == 12 then [BACKSLASH, 102]
    else if c == 10 then [BACKSLASH, 110]
    else if c == 13 then [BACKSLASH, 114]
    else if c == 9 then [BACKSLASH, 116]
    else [c]
  }

  function Escape(s: Text): Text
  {
    if s == [] then [] else Escaped(s[0]) + Escape(s[1..])
  }

  /** `cursor_push_jsonstr` */
  function JsonString(s: Text): Text
  {
    [QUOTE] + Escape(CString(s)) + [QUOTE]
  }

  function HexChar(v: nat): (c: nat)
    requires v < 16
    ensures 48 <= c <= 57 || 97 <= c <= 102
  {
    if v < 10 then 48 + v else 87 + v
  }

  predicate IsBytes(b: seq<nat>)
  {
    forall i :: 0 <= i < |b| ==> b[i] < 256
  }

  function Hex(b: seq<nat>): (t: Text)
    requires IsBytes(b)
    ensures |t| == 2 * |b|
    ensures forall i :: 0 <= i < |t| ==> 48 <= t[i] <= 57 || 97 <= t[i] <= 102
  {
    if b == [] then [] else [HexChar(b[0] / 16), HexChar(b[0] % 16)] + Hex(b[1..])
  }

  // ---- the commitment ----

  predicate GoodElem(e: TagElem)
  {
    e.PackedId? ==> IsBytes(e.id)
  }

  predicate GoodTag(t: Tag)
  {
    forall j :: 0 <= j < |t| ==> GoodElem(t[j])
  }

  predicate GoodTags(ts: seq<Tag>)
  {
    forall i :: 0 <= i < |ts| ==> GoodTag(ts[i])
  }

  /** How an element reads: a packed id as lower-case hex. */
  function Reading(e: TagElem): Text
    requires GoodElem(e)
  {
    match e
    case Str(chars) => CString(chars)
    case PackedId(id) => Hex(id)
  }

  /** `cursor_push_json_tag_str` */
  function PrintElem(e: TagElem): Text
    requires GoodElem(e)
  {
    match e
    case Str(chars) => JsonString(chars)
    case PackedId(id) => [QUOTE] + Hex(id) + [QUOTE]
  }

  /** The elements with a comma between neighbours, and the closing bracket. */
  function PrintElems(t: Tag): Text
    requires GoodTag(t)
  {
    if t == [] then [CLOSE]
    else PrintElem(t[0]) + (if |t| > 1 then [COMMA] else []) + PrintElems(t[1..])
  }

  function PrintTags(ts: seq<Tag>): Text
    requires GoodTags(ts)
  {
    if ts == [] then [CLOSE]
    else [OPEN] + PrintElems(ts[0]) + (if |ts| > 1 then [COMMA] else []) + PrintTags(ts[1..])
  }

  function Digits(n: nat): (t: Text)
    ensures t != [] && forall i :: 0 <= i < |t| ==> 48 <= t[i] <= 57
  {
    if n < 10 then [48 + n] else Digits(n / 10) + [48 + n % 10]
  }

  /** `%d` */
  function Decimal(n: int): Text
  {
    if n < 0 then [MINUS] + Digits(-n) else Digits(n)
  }

  // Every part is followed by a delimiter: comma, quote or bracket.
  function AfterTags(b: Body): Text
  {
    [COMMA] + (JsonString(b.content) + [CLOSE])
  }

  function AfterKind(b: Body): Text
    requires GoodTags(b.tags)
  {
    [COMMA] + ([OPEN] + PrintTags(b.tags) + AfterTags(b))
  }

  function AfterTime(b: Body): Text
    requires GoodTags(b.tags)
  {
    [COMMA] + (Decimal(Filters.ToInt32(b.kind)) + AfterKind(b))
  }

  function AfterPubkey(b: Body): Text
    requires GoodTags(b.tags)
  {
    [QUOTE] + ([COMMA] + Decimal(Filters.ToInt32(b.createdAt)) + AfterTime(b))
  }

  /** `ndb_event_commitment`, given a large enough buffer. The time and the kind are
      32-bit words printed as signed numbers. */
  function Commit(b: Body): Text
    requires IsBytes(b.pubkey) && GoodTags(b.tags)
  {
    [OPEN, 48, COMMA, QUOTE] + (Hex(b.pubkey) + AfterPubkey(b))
  }

  // ---- unique decodability ----

  /** A delimiter that stands in neither text splits both at the same place. */
  lemma {:induction false} SplitsAt(c: nat, a: Text, r: Text, b: Text, s: Text)
    requires c !in a && c !in b
    requires a + ([c] + r) == b + ([c] + s)
    ensures a == b && r == s
    decreases |a|
  {
    var x, y := a + ([c] + r), b + ([c] + s);
    HeadOf(c, a, r);
    HeadOf(c, b, s);
    if a != [] && b != [] {
      assert x[1..] == a[1..] + ([c] + r) && y[1..] == b[1..] + ([c] + s);
      SplitsAt(c, a[1..], r, b[1..], s);
    } else {
      assert x[1..] == r && y[1..] == s;
    }
  }

  lemma HeadOf(c: nat, a: Text, r: Text)
    ensures (a + ([c] + r))[0] == if a == [] then c else a[0]
    ensures a != [] ==> a[0] in a
  {
  }

  /** Two escaped characters that start alike are the same character. */
  lemma EscapedSplits(c: nat, r: Text, d: nat, s: Text)
    requires Escaped(c) + r == Escaped(d) + s
    ensures c == d && r == s
  {
    var x, y := Escaped(c) + r, Escaped(d) + s;
    assert x[0] == Escaped(c)[0] && y[0] == Escaped(d)[0];
    if |Escaped(c)| == 2 {
      assert x[1] == Escaped(c)[1] && y[1] == Escaped(d)[1];
    }
    assert x[|Escaped(c)|..] == r && y[|Escaped(d)|..] == s;
  }

  /** An escaped string ends at the first quote that does not follow its backslash. */
  lemma {:induction false} EscapeSplits(a: Text, r: Text, b: Text, s: Text)
    requires Escape(a) + ([QUOTE] + r) == Escape(b) + ([QUOTE] + s)
    ensures a == b && r == s
    decreases |a|
  {
    hide Escape, Escaped;
    EscapeHead(a, r);
    EscapeHead(b, s);
    EscapeTail(a, r);
    EscapeTail(b, s);
    if a != [] && b != [] {
      EscapedSplits(a[0], Escape(a[1..]) + ([QUOTE] + r), b[0], Escape(b[1..]) + ([QUOTE] + s));
      EscapeSplits(a[1..], r, b[1..], s);
    }
  }

  lemma EscapeTail(a: Text, r: Text)
    ensures var x := Escape(a) + ([QUOTE] + r);
      if a == [] then x[1..] == r else x == Escaped(a[0]) + (Escape(a[1..]) + ([QUOTE] + r))
  {
  }

  lemma EscapeHead(a: Text, r: Text)
    ensures (Escape(a) + ([QUOTE] + r))[0] == QUOTE <==> a == []
  {
    if a != [] {
      assert Escape(a)[0] == Escaped(a[0])[0];
    }
  }

  // ---- hex, numbers, elements, tags ----

  lemma {:induction false} PlainEscape(t: Text)
    requires forall i :: 0 <= i < |t| ==> Escaped(t[i]) == [t[i]]
    ensures Escape(t) == t
  {
    if t != [] {
      PlainEscape(t[1..]);
    }
  }

  lemma {:induction false} HexInjective(a: seq<nat>, b: seq<nat>)
    requires IsBytes(a) && IsBytes(b) && Hex(a) == Hex(b)
    ensures a == b
    decreases |a|
  {
    assert |a| == |b|;
    if a != [] {
      assert Hex(a)[0] == HexChar(a[0] / 16) && Hex(a)[1] == HexChar(a[0] % 16);
      assert Hex(b)[0] == HexChar(b[0] / 16) && Hex(b)[1] == HexChar(b[0] % 16);
      assert Hex(a)[2..] == Hex(a[1..]) && Hex(b)[2..] == Hex(b[1..]);
      HexInjective(a[1..], b[1..]);
      assert a == [a[0]] + a[1..] && b == [b[0]] + b[1..];
    }
  }

  /** The number a digit string stands for. */
  function DigitsValue(t: Text): int
  {
    if t == [] then 0 else 10 * DigitsValue(t[..|t| - 1]) + t[|t| - 1] - 48
  }

  lemma {:induction false} DigitsRoundTrip(n: nat)
    ensures DigitsValue(Digits(n)) == n
  {
    if n >= 10 {
      DigitsRoundTrip(n / 10);
      assert Digits(n)[..|Digits(n)| - 1] == Digits(n / 10);
    }
  }

  lemma DecimalInjective(m: int, n: int)
    requires Decimal(m) == Decimal(n)
    ensures m == n
  {
    hide Digits, DigitsValue;
    DecimalHead(m);
    DecimalHead(n);
    DigitsRoundTrip(if m < 0 then -m else m);
    DigitsRoundTrip(if n < 0 then -n else n);
  }

  lemma DecimalHead(n: int)
    ensures Decimal(n)[0] == MINUS <==> n < 0
    ensures n < 0 ==> Decimal(n)[1..] == Digits(-n)
  {
  }

  /** How an element prints: its reading, escaped, between quotes. */
  lemma ElemPrints(e: TagElem)
    requires GoodElem(e)
    ensures PrintElem(e) == [QUOTE] + Escape(Reading(e)) + [QUOTE]
  {
    if e.PackedId? { PlainEscape(Hex(e.id)); }
  }

  lemma QuotedSplits(a: Text, r: Text, b: Text, s: Text)
    requires ([QUOTE] + Escape(a) + [QUOTE]) + r == ([QUOTE] + Escape(b) + [QUOTE]) + s
    ensures a == b && r == s
  {
    hide Escape;
    var x, y := ([QUOTE] + Escape(a) + [QUOTE]) + r, ([QUOTE] + Escape(b) + [QUOTE]) + s;
    assert x[1..] == Escape(a) + ([QUOTE] + r) && y[1..] == Escape(b) + ([QUOTE] + s);
    EscapeSplits(a, r, b, s);
  }

  lemma ElemSplits(d: TagElem, r: Text, e: TagElem, s: Text)
    requires GoodElem(d) && GoodElem(e) && PrintElem(d) + r == PrintElem(e) + s
    ensures Reading(d) == Reading(e) && r == s
  {
    ElemPrints(d);
    ElemPrints(e);
    QuotedSplits(Reading(d), r, Reading(e), s);
  }

  ghost predicate SameTag(t: Tag, u: Tag)
    requires GoodTag(t) && GoodTag(u)
  {
    |t| == |u| && forall j :: 0 <= j < |t| ==> Reading(t[j]) == Reading(u[j])
  }

  ghost predicate SameTags(ts: seq<Tag>, us: seq<Tag>)
    requires GoodTags(ts) && GoodTags(us)
  {
    |ts| == |us| && forall i :: 0 <= i < |ts| ==> SameTag(ts[i], us[i])
  }

  /** What follows the first of several list items. */
  function Rest(more: bool, t: Text): Text
  {
    (if more then [COMMA] else []) + t
  }

  lemma ElemsUnfold(t: Tag, r: Text)
    requires GoodTag(t)
    ensures if t == [] then PrintElems(t) + r == [CLOSE] + r
            else PrintElems(t) + r == PrintElem(t[0]) + Rest(|t| > 1, PrintElems(t[1..]) + r)
  {
    hide PrintElem, GoodElem;
    if t != [] {
      Reassociate(PrintElem(t[0]), if |t| > 1 then [COMMA] else [], PrintElems(t[1..]), r);
    }
  }

  lemma Reassociate(p: Text, c: Text, q: Text, r: Text)
    ensures (p + c + q) + r == p + (c + (q + r))
    ensures ([OPEN] + p + c + q) + r == [OPEN] + (p + (c + (q + r)))
  {
  }

  /** An item never starts like the end of its list. */
  lemma ElemsHead(t: Tag, r: Text)
    requires GoodTag(t)
    ensures PrintElems(t) + r != [] && ((PrintElems(t) + r)[0] == CLOSE <==> t == [])
  {
    if t != [] {
      assert PrintElems(t)[0] == PrintElem(t[0])[0] == QUOTE;
    }
  }

  /** A comma or a closing bracket tells whether the list goes on. */
  lemma RestSplits(more: bool, t: Text, more': bool, t': Text)
    requires !more ==> t != [] && t[0] == CLOSE
    requires !more' ==> t' != [] && t'[0] == CLOSE
    requires Rest(more, t) == Rest(more', t')
    ensures more == more' && t == t'
  {
    assert [] + t == t && [] + t' == t';
    assert ([COMMA] + t)[1..] == t && ([COMMA] + t')[1..] == t';
    assert ([COMMA] + t)[0] == COMMA && ([COMMA] + t')[0] == COMMA;
  }

  lemma {:induction false} ElemsSplit(t: Tag, r: Text, u: Tag, s: Text)
    requires GoodTag(t) && GoodTag(u) && PrintElems(t) + r == PrintElems(u) + s
    ensures SameTag(t, u) && r == s
    decreases |t|
  {
    hide PrintElems, PrintElem, Reading, GoodElem, Rest;
    ElemsUnfold(t, r);
    ElemsUnfold(u, s);
    ElemsHead(t, r);
    ElemsHead(u, s);
    if t != [] && u != [] {
      var x, y := PrintElems(t[1..]) + r, PrintElems(u[1..]) + s;
      ElemSplits(t[0], Rest(|t| > 1, x), u[0], Rest(|u| > 1, y));
      ElemsHead(t[1..], r);
      ElemsHead(u[1..], s);
      RestSplits(|t| > 1, x, |u| > 1, y);
      ElemsSplit(t[1..], r, u[1..], s);
      assert forall j :: 0 < j < |t| ==> t[j] == t[1..][j - 1] && u[j] == u[1..][j - 1];
    } else {
      assert ([CLOSE] + r)[1..] == r && ([CLOSE] + s)[1..] == s;
    }
  }

  lemma TagsUnfold(ts: seq<Tag>, r: Text)
    requires GoodTags(ts)
    ensures if ts == [] then PrintTags(ts) + r == [CLOSE] + r
            else PrintTags(ts) + r == [OPEN] + (PrintElems(ts[0]) + Rest(|ts| > 1, PrintTags(ts[1..]) + r))
  {
    if ts != [] {
      Reassociate(PrintElems(ts[0]), if |ts| > 1 then [COMMA] else [], PrintTags(ts[1..]), r);
    }
  }

  lemma TagsHead(ts: seq<Tag>, r: Text)
    requires GoodTags(ts)
    ensures PrintTags(ts) + r != [] && ((PrintTags(ts) + r)[0] == CLOSE <==> ts == [])
  {
    hide PrintElems, GoodTag;
    if ts != [] {
      assert PrintTags(ts)[0] == OPEN;
    }
  }

  lemma {:induction false} TagsSplit(ts: seq<Tag>, r: Text, us: seq<Tag>, s: Text)
    requires GoodTags(ts) && GoodTags(us) && PrintTags(ts) + r == PrintTags(us) + s
    ensures SameTags(ts, us) && r == s
    decreases |ts|
  {
    hide PrintTags, PrintElems, GoodTag, SameTag, Rest;
    TagsUnfold(ts, r);
    TagsUnfold(us, s);
    TagsHead(ts, r);
    TagsHead(us, s);
    if ts != [] && us != [] {
      var x, y := PrintTags(ts[1..]) + r, PrintTags(us[1..]) + s;
      var p, q := PrintElems(ts[0]) + Rest(|ts| > 1, x), PrintElems(us[0]) + Rest(|us| > 1, y);
      assert ([OPEN] + p)[1..] == p && ([OPEN] + q)[1..] == q;
      ElemsSplit(ts[0], Rest(|ts| > 1, x), us[0], Rest(|us| > 1, y));
      TagsHead(ts[1..], r);
      TagsHead(us[1..], s);
      RestSplits(|ts| > 1, x, |us| > 1, y);
      TagsSplit(ts[1..], r, us[1..], s);
      assert forall i :: 0 < i < |ts| ==> ts[i] == ts[1..][i - 1] && us[i] == us[1..][i - 1];
    } else {
      assert ([CLOSE] + r)[1..] == r && ([CLOSE] + s)[1..] == s;
    }
  }

  // ---- the commitment as a whole ----

  /** Equal up to what the text can show: C strings, and packed ids read as hex. */
  ghost predicate SameReading(a: Body, b: Body)
    requires GoodTags(a.tags) && GoodTags(b.tags)
  {
    && a.pubkey == b.pubkey && a.createdAt == b.createdAt && a.kind == b.kind
    && SameTags(a.tags, b.tags) && CString(a.content) == CString(b.content)
  }

  lemma NoComma(n: int)
    ensures COMMA !in Decimal(n)
  {
  }

  lemma Int32Injective(m: nat, n: nat)
    requires m < U32 && n < U32 && Filters.ToInt32(m) == Filters.ToInt32(n)
    ensures m == n
  {
  }

  /** `n`, printed, up to the next comma. */
  lemma NumberSplits(m: nat, r: Text, n: nat, s: Text)
    requires m < U32 && n < U32
    requires Decimal(Filters.ToInt32(m)) + ([COMMA] + r) == Decimal(Filters.ToInt32(n)) + ([COMMA] + s)
    ensures m == n && r == s
  {
    hide Decimal;
    NoComma(Filters.ToInt32(m));
    NoComma(Filters.ToInt32(n));
    SplitsAt(COMMA, Decimal(Filters.ToInt32(m)), r, Decimal(Filters.ToInt32(n)), s);
    DecimalInjective(Filters.ToInt32(m), Filters.ToInt32(n));
    Int32Injective(m, n);
  }

  lemma {:induction false} SameElemsPrintAlike(t: Tag, u: Tag)
    requires GoodTag(t) && GoodTag(u) && SameTag(t, u)
    ensures PrintElems(t) == PrintElems(u)
    decreases |t|
  {
    if t != [] {
      ElemPrints(t[0]);
      ElemPrints(u[0]);
      SameElemsPrintAlike(t[1..], u[1..]);
    }
  }

  lemma {:induction false} SameTagsPrintAlike(ts: seq<Tag>, us: seq<Tag>)
    requires GoodTags(ts) && GoodTags(us) && SameTags(ts, us)
    ensures PrintTags(ts) == PrintTags(us)
    decreases |ts|
  {
    hide PrintElems, SameTag;
    if ts != [] {
      SameElemsPrintAlike(ts[0], us[0]);
      SameTagsPrintAlike(ts[1..], us[1..]);
    }
  }

  lemma ContentSplits(a: Body, b: Body)
    requires AfterTags(a) == AfterTags(b)
    ensures CString(a.content) == CString(b.content)
  {
    assert AfterTags(a)[1..] == JsonString(a.content) + [CLOSE] && AfterTags(b)[1..] == JsonString(b.content) + [CLOSE];
    QuotedSplits(CString(a.content), [CLOSE], CString(b.content), [CLOSE]);
  }

  lemma TailSplits(a: Body, b: Body)
    requires GoodTags(a.tags) && GoodTags(b.tags) && AfterKind(a) == AfterKind(b)
    ensures SameTags(a.tags, b.tags) && CString(a.content) == CString(b.content)
  {
    hide AfterTags, PrintTags, SameTags, GoodTags;
    assert AfterKind(a)[2..] == PrintTags(a.tags) + AfterTags(a) && AfterKind(b)[2..] == PrintTags(b.tags) + AfterTags(b);
    TagsSplit(a.tags, AfterTags(a), b.tags, AfterTags(b));
    ContentSplits(a, b);
  }

  lemma NumbersSplit(a: Body, b: Body)
    requires GoodTags(a.tags) && GoodTags(b.tags) && a.createdAt < U32 && b.createdAt < U32 && a.kind < U32 && b.kind < U32
    requires AfterPubkey(a) == AfterPubkey(b)
    ensures a.createdAt == b.createdAt && a.kind == b.kind && AfterKind(a) == AfterKind(b)
  {
    hide AfterTags, PrintTags, GoodTags, Decimal, Filters.ToInt32;
    var x, y := Decimal(Filters.ToInt32(a.kind)), Decimal(Filters.ToInt32(b.kind));
    assert AfterPubkey(a)[2..] == Decimal(Filters.ToInt32(a.createdAt)) + ([COMMA] + (x + AfterKind(a)));
    assert AfterPubkey(b)[2..] == Decimal(Filters.ToInt32(b.createdAt)) + ([COMMA] + (y + AfterKind(b)));
    NumberSplits(a.createdAt, x + AfterKind(a), b.createdAt, y + AfterKind(b));
    NumberSplits(a.kind, AfterKind(a)[1..], b.kind, AfterKind(b)[1..]);
  }

  /** The event commitment is injective: two events commit to the same text exactly
      when they read the same. */
  lemma CommitsExactly(a: Body, b: Body)
    requires IsBytes(a.pubkey) && IsBytes(b.pubkey) && GoodTags(a.tags) && GoodTags(b.tags)
    requires a.createdAt < U32 && b.createdAt < U32 && a.kind < U32 && b.kind < U32
    ensures Commit(a) == Commit(b) <==> SameReading(a, b)
  {
    hide Hex, AfterPubkey, SameTags, GoodTags, IsBytes;
    if Commit(a) == Commit(b) {
      PubkeySplits(a, b);
      NumbersSplit(a, b);
      TailSplits(a, b);
    }
    if SameReading(a, b) {
      SameTagsPrintAlike(a.tags, b.tags);
      PrintsAlike(a, b);
    }
  }

  lemma PubkeySplits(a: Body, b: Body)
    requires IsBytes(a.pubkey) && IsBytes(b.pubkey) && GoodTags(a.tags) && GoodTags(b.tags)
    requires Commit(a) == Commit(b)
    ensures a.pubkey == b.pubkey && AfterPubkey(a) == AfterPubkey(b)
  {
    hide Hex, GoodTags, AfterTime;
    assert Commit(a)[4..] == Hex(a.pubkey) + AfterPubkey(a) && Commit(b)[4..] == Hex(b.pubkey) + AfterPubkey(b);
    SplitsAt(QUOTE, Hex(a.pubkey), AfterPubkey(a)[1..], Hex(b.pubkey), AfterPubkey(b)[1..]);
    HexInjective(a.pubkey, b.pubkey);
  }

  lemma PrintsAlike(a: Body, b: Body)
    requires GoodTags(a.tags) && GoodTags(b.tags) && PrintTags(a.tags) == PrintTags(b.tags)
    requires a.createdAt == b.createdAt && a.kind == b.kind && CString(a.content) == CString(b.content)
    ensures AfterPubkey(a) == AfterPubkey(b)
  {
    hide PrintTags, GoodTags, Decimal, CString;
  }

  /** A 32-bit time or kind prints as the number it is exactly below 2^31; from
      there on it prints with a minus sign. */
  lemma PrintsAsItselfIff(n: nat)
    requires n < U32
    ensures Decimal(Filters.ToInt32(n)) == Digits(n) <==> n < 0x8000_0000
  {
    hide Digits;
    Int32Sign(n);
    hide Filters.ToInt32;
    DecimalHead(Filters.ToInt32(n));
  }

  lemma Int32Sign(n: nat)
    requires n < U32
    ensures if n < 0x8000_0000 then Filters.ToInt32(n) == n else Filters.ToInt32(n) < 0
  {
  }
}
