/** The scanners that pick hashtags, urls, invoices and mentions out of a note's
    content (src/cursor.h, src/content_parser.c, src/nostr_bech32.c). */
module ContentScan {
  import opened Tables
  import opened Notes
  import opened Varints
  import opened Blocks

  // ---- characters ----

  // Code points reach some tests through a `char` and lose all but their low byte.

  predicate White(c: nat)
  {
    c % 256 == 32 || 9 <= c % 256 <= 13
  }

  /** `ispunct`, without the underscore. */
  predicate AsciiPunct(c: nat)
  {
    33 <= c <= 47 || 58 <= c <= 64 || 91 <= c <= 94 || c == 96 || 123 <= c <= 126
  }

  predicate UnicodePunct(c: nat)
  {
    && c != 0x301C && c != 0xFF5E
    && (0xA0 <= c <= 0xBF || 0x2000 <= c <= 0x206F || 0x20A0 <= c <= 0x20CF || 0x2E00 <= c <= 0x2E7F
        || 0x3000 <= c <= 0x303F || 0x2FF0 <= c <= 0x2FFF)
  }

  predicate RightBoundary(c: nat)
  {
    White(c) || (c % 256 != 95 && (AsciiPunct(c) || UnicodePunct(c)))
  }

  predicate LeftBoundary(b: nat)
  {
    RightBoundary(b) || b >= 128
  }

  predicate Alnum(b: nat)
  {
    65 <= b <= 90 || 97 <= b <= 122 || 48 <= b <= 57
  }

  function Lower(b: nat): nat
  {
    if 65 <= b <= 90 then b + 32 else b
  }

  /** `peek_char` */
  function CharAt(c: Bytes, i: int): int
  {
    if 0 <= i < |c| then c[i] else -1
  }

  predicate Is(c: Bytes, i: int, ch: char)
  {
    CharAt(c, i) == ch as int
  }

  /** What `parse_str` matches: `s` in any case, and at least one more byte. */
  predicate StrAt(c: Bytes, p: nat, s: string)
  {
    p + |s| < |c| && forall i :: 0 <= i < |s| ==> Lower(c[p + i]) == s[i] as int
  }

  /** `strncmp` against content with a NUL behind it. */
  predicate Starts(c: Bytes, p: nat, s: string)
  {
    p + |s| <= |c| && forall i :: 0 <= i < |s| ==> c[p + i] == s[i] as int
  }

  predicate Continues(c: Bytes, i: nat)
  {
    i < |c| && 128 <= c[i] < 192
  }

  /** `parse_utf8_char`: code point and length. */
  function Utf8(c: Bytes, p: nat): (r: Option<(nat, nat)>)
    requires p < |c|
    ensures r.Some? ==> 1 <= r.value.1 && p + r.value.1 <= |c|
  {
    var b := c[p];
    if b < 128 then Some((b, 1))
    else if 192 <= b < 224 && Continues(c, p + 1) then
      Some((b % 32 * 64 + c[p + 1] % 64, 2))
    else if 224 <= b < 240 && Continues(c, p + 1) && Continues(c, p + 2) then
      Some(((b % 16 * 64 + c[p + 1] % 64) * 64 + c[p + 2] % 64, 3))
    else if 240 <= b < 248 && Continues(c, p + 1) && Continues(c, p + 2) && Continues(c, p + 3) then
      Some((((b % 8 * 64 + c[p + 1] % 64) * 64 + c[p + 2] % 64) * 64 + c[p + 3] % 64, 4))
    else None
  }

  // ---- where a consumer stops ----

  /** `consume_until_boundary`: it also stops at bytes that are no UTF-8. */
  function BoundaryFrom(c: Bytes, p: nat): (q: nat)
    requires p <= |c|
    ensures p <= q <= |c|
    decreases |c| - p
  {
    if p == |c| || White(c[p]) then p
    else
      match Utf8(c, p)
      case None => p
      case Some((code, len)) => if RightBoundary(code) then p else BoundaryFrom(c, p + len)
  }

  datatype Stop = AtWhite | AtNonAlnum | AtHostEnd | AtPathEnd | AtUrlEnd

  /** `is_final_url_char` */
  predicate FinalUrlChar(c: Bytes, q: nat)
    requires q < |c|
  {
    White(c[q]) || ((q + 1 == |c| || White(c[q + 1])) && (Is(c, q, '.') || Is(c, q, ',')))
  }

  predicate Stops(c: Bytes, q: nat, stop: Stop)
    requires q < |c|
  {
    match stop
    case AtWhite => White(c[q])
    case AtNonAlnum => !Alnum(c[q])
    case AtHostEnd => !(Alnum(c[q]) || Is(c, q, '.') || Is(c, q, '-')) || FinalUrlChar(c, q)
    case AtPathEnd => Is(c, q, '?') || Is(c, q, '#') || FinalUrlChar(c, q)
    case AtUrlEnd => FinalUrlChar(c, q)
  }

  /** The first place from `p` on where a consumer stops. */
  function Until(c: Bytes, p: nat, stop: Stop): (q: nat)
    requires p <= |c|
    ensures p <= q <= |c|
    ensures forall k :: p <= k < q ==> !Stops(c, k, stop)
    ensures q < |c| ==> Stops(c, q, stop)
    decreases |c| - p
  {
    if p == |c| || Stops(c, p, stop) then p else Until(c, p + 1, stop)
  }

  // ---- the scanners ----

  // What a scanner found. Mentions and invoices are still to be decoded.
  datatype Find = Plain(block: Block) | Bech32(at: nat, len: nat, kind: nat) | Bolt11(at: nat, len: nat)

  // What a scanner found, if anything, and where it left the cursor.
  datatype Scan = Scan(find: Option<Find>, next: nat)

  predicate Within(f: Find, n: nat)
  {
    match f
    case Plain(b) => Bare(b) && Inside(b, n) && (b.MentionIndex? ==> b.index < 1000)
    case Bech32(at, len, kind) => at + len <= n && len > 0 && 1 <= kind <= 7
    case Bolt11(at, len) => at + len <= n && len > 0
  }

  /** A find moves the cursor and lies within the content. */
  ghost predicate Sound(c: Bytes, p: nat, s: Scan)
  {
    p <= s.next <= |c| && (s.find.Some? ==> p < s.next && Within(s.find.value, |c|))
  }

  function DigitAt(c: Bytes, p: nat): (d: Option<nat>)
    ensures d.Some? ==> p < |c| && d.value <= 9
  {
    if 48 <= CharAt(c, p) <= 57 then Some(c[p] - 48) else None
  }

  function Close(c: Bytes, p: nat, q: nat, index: nat): Scan
  {
    if Is(c, q, ']') then Scan(Some(Plain(MentionIndex(index))), q + 1) else Scan(None, p)
  }

  /** `parse_mention_index` */
  function ScanIndex(c: Bytes, p: nat): (s: Scan)
    requires p < |c|
    ensures Sound(c, p, s)
  {
    if !StrAt(c, p, "#[") then Scan(None, p)
    else
      match DigitAt(c, p + 2)
      case None => Scan(None, p)
      case Some(d1) =>
        match DigitAt(c, p + 3)
        case None => Close(c, p, p + 3, d1)
        case Some(d2) =>
          match DigitAt(c, p + 4)
          case None => Close(c, p, p + 4, d1 * 10 + d2)
          case Some(d3) => Close(c, p, p + 5, d1 * 100 + d2 * 10 + d3)
  }

  /** `parse_hashtag`: a hashtag may be empty. */
  function ScanHashtag(c: Bytes, p: nat): (s: Scan)
    requires p < |c|
    ensures Sound(c, p, s)
  {
    if !Is(c, p, '#') || p + 1 == |c| || White(c[p + 1]) || Is(c, p + 1, '#') then Scan(None, p)
    else
      var q := BoundaryFrom(c, p + 1);
      Scan(Some(Plain(Hashtag(p + 1, q - (p + 1)))), q)
  }

  /** `parse_nostr_bech32_type`: the type and the length of its prefix. */
  function NostrType(c: Bytes, p: nat): (r: Option<(nat, nat)>)
    ensures r.Some? ==> p + r.value.1 <= |c| && 4 <= r.value.1 && 1 <= r.value.0 <= 7
  {
    if Starts(c, p, "note") then Some((1, 4))
    else if Starts(c, p, "npub") then Some((2, 4))
    else if Starts(c, p, "nsec") then Some((7, 4))
    else if Starts(c, p, "nprofile") then Some((3, 8))
    else if Starts(c, p, "nevent") then Some((4, 6))
    else if Starts(c, p, "nrelay") then Some((5, 6))
    else if Starts(c, p, "naddr") then Some((6, 5))
    else None
  }

  /** `parse_nostr_bech32_str`: the type, and where the string ends. Its data part has
      at least 59 characters. */
  function NostrStr(c: Bytes, p: nat): (r: Option<(nat, nat)>)
    requires p <= |c|
    ensures r.Some? ==> p < r.value.1 <= |c| && 1 <= r.value.0 <= 7
  {
    match NostrType(c, p)
    case None => None
    case Some((kind, n)) =>
      var q := Until(c, p, AtNonAlnum);
      if q < p + n + 59 then None else Some((kind, q))
  }

  /** `consume_url_path` */
  function PathEnd(c: Bytes, p: nat): (q: nat)
    requires p <= |c|
    ensures p <= q <= |c|
  {
    if Is(c, p, '/') then Until(c, p, AtPathEnd) else p
  }

  /** `consume_url_fragment`: no url may have an empty one before more text. */
  function FragmentEnd(c: Bytes, p: nat): (q: Option<nat>)
    requires p <= |c|
    ensures q.Some? ==> p <= q.value <= |c|
  {
    if !Is(c, p, '#') && !Is(c, p, '?') then Some(p)
    else
      var q := Until(c, p + 1, AtUrlEnd);
      if q < |c| && q == p + 1 then None else Some(q)
  }

  /** What `parse_url` makes of a url from `p` to `end`, its host from `host` to `path`. */
  function UrlOrMention(c: Bytes, p: nat, host: nat, path: nat, end: nat): Find
    requires p <= host <= path <= |c| && p <= end
  {
    var at := if path + 1 < |c| then path + 1 else path;
    if path - host == 8 && Starts(c, host, "damus.io") && NostrStr(c, at).Some? then
      Bech32(at, NostrStr(c, at).value.1 - at, NostrStr(c, at).value.0)
    else
      Plain(Url(p, end - p))
  }

  /** A url in parentheses leaves its closing one out. */
  function SmartEnd(c: Bytes, p: nat, end: nat): (q: nat)
    requires p + 1 < end <= |c|
    ensures p < q <= end
  {
    if Is(c, p - 1, '(') && Is(c, end - 1, ')') then end - 1 else end
  }

  function SchemeEnd(c: Bytes, p: nat): (q: Option<nat>)
    ensures q.Some? ==> p + 7 <= q.value < |c|
  {
    if !StrAt(c, p, "http") then None
    else
      var q := if Is(c, p + 4, 's') || Is(c, p + 4, 'S') then p + 5 else p + 4;
      if StrAt(c, q, "://") then Some(q + 3) else None
  }

  /** `parse_url`: in damus.io links the note, not the url, is the find. */
  function ScanUrl(c: Bytes, p: nat): (s: Scan)
    requires p < |c|
    ensures Sound(c, p, s)
  {
    match SchemeEnd(c, p)
    case None => Scan(None, p)
    case Some(host) =>
      var path := Until(c, host, AtHostEnd);
      if path == host then Scan(None, p)
      else
        match FragmentEnd(c, PathEnd(c, path))
        case None => Scan(None, p)
        case Some(end) =>
          var next := SmartEnd(c, p, end);
          Scan(Some(UrlOrMention(c, p, host, path, next)), next)
  }

  /** `parse_invoice`: a "lightning:" that no invoice follows stays consumed. */
  function ScanInvoice(c: Bytes, p: nat): (s: Scan)
    requires p < |c|
    ensures Sound(c, p, s) && s.next < |c| + if s.find.Some? then 1 else 0
  {
    var at := if StrAt(c, p, "lightning:") then p + 10 else p;
    if !StrAt(c, at, "lnbc") then Scan(None, at)
    else
      var end := Until(c, at + 4, AtWhite);
      if end == at + 4 then Scan(None, at) else Scan(Some(Bolt11(at, end - at)), end)
  }

  /** `parse_mention_bech32` */
  function ScanMention(c: Bytes, p: nat): (s: Scan)
    requires p < |c|
    ensures Sound(c, p, s)
  {
    var q := if Is(c, p, '@') then p + 1 else p;
    var at := if StrAt(c, q, "nostr:") then q + 6 else q;
    match NostrStr(c, at)
    case None => Scan(None, p)
    case Some((kind, end)) => Scan(Some(Bech32(at, end - at, kind)), end)
  }

  // ---- the whole content ----

  /** One turn of the loop of `ndb_parse_content`. */
  function Turn(c: Bytes, p: nat): (s: Scan)
    requires p < |c|
    ensures Sound(c, p, s) && p < s.next
  {
    var before := CharAt(c, p - 1);
    var s :=
      if before != -1 && !LeftBoundary(before) && !Is(c, p, '#') then Scan(None, p)
      else if Is(c, p, '#') then (if ScanIndex(c, p).find.Some? then ScanIndex(c, p) else ScanHashtag(c, p))
      else if Is(c, p, 'h') || Is(c, p, 'H') then ScanUrl(c, p)
      else if Is(c, p, 'l') || Is(c, p, 'L') then ScanInvoice(c, p)
      else if Is(c, p, 'n') || Is(c, p, '@') then ScanMention(c, p)
      else Scan(None, p);
    if s.find.Some? then s else Scan(None, s.next + 1)
  }

  /** `add_text_block`: nothing for an empty text. */
  function TextOf(start: nat, end: nat): seq<Find>
    requires start <= end
  {
    if start == end then [] else [Plain(Text(start, end - start))]
  }

  /** All that `ndb_parse_content` pushes with its cursor at `p` and unpushed text
      from `start` on. */
  function FindsFrom(c: Bytes, start: nat, p: nat): (fs: seq<Find>)
    requires start <= p <= |c|
    ensures forall i :: 0 <= i < |fs| ==> Within(fs[i], |c|)
    decreases |c| - p
  {
    if p == |c| then TextOf(start, p)
    else
      var s := Turn(c, p);
      if s.find.None? then FindsFrom(c, start, s.next)
      else TextOf(start, p) + ([s.find.value] + FindsFrom(c, s.next, s.next))
  }

  function Finds(c: Bytes): seq<Find>
  {
    FindsFrom(c, 0, 0)
  }

  // ---- finds in order ----

  /** Where in the content a find begins and ends; an index mention has no span. */
  predicate Spans(f: Find) { !(f.Plain? && f.block.MentionIndex?) }

  function Begin(f: Find): nat
    requires Spans(f)
  {
    if f.Plain? then f.block.at else f.at
  }

  function End(f: Find): nat
    requires Spans(f)
  {
    if f.Plain? then f.block.at + f.block.len else f.at + f.len
  }

  ghost predicate InOrder(fs: seq<Find>)
  {
    forall i, j :: 0 <= i < j < |fs| && Spans(fs[i]) && Spans(fs[j]) ==> End(fs[i]) <= Begin(fs[j])
  }

  lemma StartsAt(c: Bytes, p: nat, s: string)
    requires |s| >= 3
    ensures Starts(c, p, s) ==> Is(c, p, s[0]) && Is(c, p + 1, s[1]) && Is(c, p + 2, s[2])
  {
    if Starts(c, p, s) {
      assert c[p + 0] == s[0] as int && c[p + 1] == s[1] as int && c[p + 2] == s[2] as int;
    }
  }

  lemma StrStartsAt(c: Bytes, p: nat, s: string)
    requires |s| >= 3 && StrAt(c, p, s)
    ensures Lower(c[p]) == s[0] as int && Lower(c[p + 1]) == s[1] as int && Lower(c[p + 2]) == s[2] as int
  {
    assert Lower(c[p + 0]) == s[0] as int;
  }

  lemma NostrPrefix(c: Bytes, p: nat)
    requires NostrType(c, p).Some?
    ensures Is(c, p, 'n') && !StrAt(c, p, "nostr:")
  {
    hide Starts, StrAt;
    StartsAt(c, p, "note");
    StartsAt(c, p, "npub");
    StartsAt(c, p, "nsec");
    StartsAt(c, p, "nprofile");
    StartsAt(c, p, "nevent");
    StartsAt(c, p, "nrelay");
    StartsAt(c, p, "naddr");
    if StrAt(c, p, "nostr:") { StrStartsAt(c, p, "nostr:"); }
  }

  lemma NoteIsAlnum(c: Bytes, at: nat)
    requires at <= |c| && NostrStr(c, at).Some?
    ensures var end := NostrStr(c, at).value.1;
      at + 63 <= end && Is(c, at, 'n') && !StrAt(c, at, "nostr:") && forall k :: at <= k < end ==> Alnum(c[k])
  {
    hide StrAt, NostrType;
    var end := NostrStr(c, at).value.1;
    assert end == Until(c, at, AtNonAlnum);
    NostrPrefix(c, at);
    forall k | at <= k < end ensures Alnum(c[k]) {
      assert !Stops(c, k, AtNonAlnum);
    }
  }

  /** A link with a note ends where its host does, unless a `/`, `?` or `#` follows. */
  lemma LinkEnds(c: Bytes, p: nat, path: nat, note: nat)
    requires p + 7 < path < note <= |c| && !Is(c, path - 1, ')') && FragmentEnd(c, PathEnd(c, path)).Some?
    requires !Is(c, note - 1, ')') && forall k :: path < k < note ==> Alnum(c[k])
    ensures var next := SmartEnd(c, p, FragmentEnd(c, PathEnd(c, path)).value);
      if Is(c, path, '/') || Is(c, path, '?') || Is(c, path, '#') then note <= next else next == path
  {
    if Is(c, path, '/') {
      AlnumPasses(c, path + 1, note, AtPathEnd);
    } else if Is(c, path, '?') || Is(c, path, '#') {
      AlnumPasses(c, path + 1, note, AtUrlEnd);
    }
  }

  /** The note of a link lies within it exactly when a `/`, `?` or `#` follows the host. */
  lemma LinkedNoteInPlaceIff(c: Bytes, p: nat)
    requires p < |c| && ScanUrl(c, p).find.Some? && ScanUrl(c, p).find.value.Bech32?
    ensures var s := ScanUrl(c, p); var at := s.find.value.at;
      && p < at <= |c| && NostrStr(c, at) == Some((s.find.value.kind, End(s.find.value)))
      && (End(s.find.value) <= s.next <==> Is(c, at - 1, '/') || Is(c, at - 1, '?') || Is(c, at - 1, '#'))
      && (End(s.find.value) > s.next ==> s.next == at - 1)
  {
    hide StrAt, Starts, PathEnd, FragmentEnd, SmartEnd, NostrStr;
    var path := Until(c, SchemeEnd(c, p).value, AtHostEnd);
    var at := if path + 1 < |c| then path + 1 else path;
    NoteIsAlnum(c, at);
    assert at == path + 1;
    assert !Stops(c, path - 1, AtHostEnd);
    LinkEnds(c, p, path, NostrStr(c, at).value.1);
  }

  /** A url's path and fragment run on over letters and digits. */
  lemma AlnumPasses(c: Bytes, p: nat, q: nat, stop: Stop)
    requires p <= q <= |c| && (stop == AtPathEnd || stop == AtUrlEnd) && forall k :: p <= k < q ==> Alnum(c[k])
    ensures Until(c, p, stop) >= q
    ensures p > 0 && (Is(c, p - 1, '/') || Is(c, p - 1, '?') || Is(c, p - 1, '#')) && !Stops(c, p - 1, stop) ==> Until(c, p - 1, stop) >= q
  {
    assert forall k :: p <= k < q ==> !Stops(c, k, stop);
  }

  ghost predicate BeginFrom(fs: seq<Find>, from: nat)
  {
    forall i :: 0 <= i < |fs| && Spans(fs[i]) ==> from <= Begin(fs[i])
  }

  /** A damus.io link at `p` with a note behind something else than a path, a query or
      a fragment. */
  predicate StrayLink(c: Bytes, p: nat)
  {
    && p < |c| && ScanUrl(c, p).find.Some? && ScanUrl(c, p).find.value.Bech32?
    && var at := ScanUrl(c, p).find.value.at;
       !(Is(c, at - 1, '/') || Is(c, at - 1, '?') || Is(c, at - 1, '#'))
  }

  lemma UrlInPlace(c: Bytes, p: nat)
    requires p < |c| && ScanUrl(c, p).find.Some?
    ensures p <= Begin(ScanUrl(c, p).find.value)
    ensures End(ScanUrl(c, p).find.value) <= ScanUrl(c, p).next <==> !StrayLink(c, p)
  {
    if ScanUrl(c, p).find.value.Bech32? { LinkedNoteInPlaceIff(c, p); }
  }

  /** What a turn finds begins where the turn does or later, and ends before the cursor
      is left unless it is the note of a stray link. */
  lemma TurnInPlace(c: Bytes, p: nat)
    requires p < |c| && Turn(c, p).find.Some? && Spans(Turn(c, p).find.value)
    ensures p <= Begin(Turn(c, p).find.value)
    ensures End(Turn(c, p).find.value) > Turn(c, p).next ==> StrayTurn(c, p)
  {
    hide StrayLink, LeftBoundary, ScanUrl, StrAt, NostrStr, DigitAt;
    if ScanUrl(c, p).find.Some? && Turn(c, p) == ScanUrl(c, p) { UrlInPlace(c, p); }
  }

  /** A stray link that is scanned as one. */
  predicate StrayTurn(c: Bytes, p: nat)
  {
    StrayLink(c, p) && Turn(c, p) == ScanUrl(c, p)
  }

  /** A stray link comes up when the cursor goes on from `p`. */
  predicate StrayFrom(c: Bytes, p: nat)
    decreases |c| - p
  {
    p < |c| && (StrayTurn(c, p) || StrayFrom(c, Turn(c, p).next))
  }

  lemma TurnMoves(c: Bytes, p: nat)
    requires p < |c|
    ensures p < Turn(c, p).next <= |c|
  {
  }

  lemma InOrderCons(f: Find, fs: seq<Find>, from: nat, next: nat)
    requires InOrder(fs) && BeginFrom(fs, next) && from <= next && (Spans(f) ==> from <= Begin(f) && End(f) <= next)
    ensures InOrder([f] + fs) && BeginFrom([f] + fs, from)
  {
  }

  lemma TextInOrder(start: nat, p: nat, fs: seq<Find>)
    requires start <= p && InOrder(fs) && BeginFrom(fs, p)
    ensures InOrder(TextOf(start, p) + fs) && BeginFrom(TextOf(start, p) + fs, start)
  {
    if start == p {
      assert TextOf(start, p) + fs == fs;
    } else {
      InOrderCons(Plain(Text(start, p - start)), fs, start, p);
    }
  }

  /** Text not pushed yet is pushed next. */
  lemma {:induction false} PendingText(c: Bytes, start: nat, p: nat)
    requires start < p <= |c|
    ensures var fs := FindsFrom(c, start, p);
      |fs| > 0 && fs[0].Plain? && fs[0].block.Text? && fs[0].block.at == start
    decreases |c| - p
  {
    hide Turn, Within;
    if p < |c| {
      TurnMoves(c, p);
      if Turn(c, p).find.None? { PendingText(c, start, Turn(c, p).next); }
    }
  }

  lemma HostEndsInO(c: Bytes, host: nat)
    requires Starts(c, host, "damus.io")
    ensures Is(c, host + 7, 'o')
  {
    assert c[host + 7] == "damus.io"[7] as int;
  }

  lemma LinkHost(c: Bytes, p: nat, host: nat, path: nat, end: nat)
    requires p <= host <= path <= |c| && p <= end && UrlOrMention(c, p, host, path, end).Bech32?
    ensures path == host + 8 && Is(c, path - 1, 'o')
    ensures UrlOrMention(c, p, host, path, end).at == path + 1
  {
    hide NostrStr, Starts;
    HostEndsInO(c, host);
    NoteIsAlnum(c, if path + 1 < |c| then path + 1 else path);
  }

  lemma DamusHost(c: Bytes, p: nat)
    requires p < |c| && ScanUrl(c, p).find.Some? && ScanUrl(c, p).find.value.Bech32?
    ensures ScanUrl(c, p).find.value.at >= 2 && Is(c, ScanUrl(c, p).find.value.at - 2, 'o')
  {
    var host := SchemeEnd(c, p).value;
    var path := Until(c, host, AtHostEnd);
    var end := SmartEnd(c, p, FragmentEnd(c, PathEnd(c, path)).value);
    assert ScanUrl(c, p).find.value == UrlOrMention(c, p, host, path, end);
    hide NostrStr, StrAt, PathEnd, FragmentEnd, SmartEnd, UrlOrMention, Until, SchemeEnd, ScanUrl;
    LinkHost(c, p, host, path, end);
  }

  /** Between an `o` and a character that starts nothing, a turn only moves on. */
  lemma NothingBehindO(c: Bytes, p: nat)
    requires 0 < p < |c| && Is(c, p - 1, 'o') && !Is(c, p, '#')
    ensures Turn(c, p) == Scan(None, p + 1)
  {
    assert !LeftBoundary(111);
  }

  /** A find, and then text from before its end. */
  lemma Overlap(fs: seq<Find>, text: seq<Find>, f: Find, rest: seq<Find>)
    requires fs == text + ([f] + rest) && rest != [] && Spans(f) && Spans(rest[0]) && Begin(rest[0]) < End(f)
    ensures !InOrder(fs)
  {
    assert fs[|text|] == f && fs[|text| + 1] == rest[0];
  }

  /** A stray turn leaves the cursor before its note, where the next turn finds nothing. */
  lemma AfterStray(c: Bytes, p: nat)
    requires p < |c| && StrayTurn(c, p)
    ensures var s := Turn(c, p);
      && s.find.Some? && s.find.value.Bech32? && p < s.next < |c| && End(s.find.value) > s.next
      && Turn(c, s.next) == Scan(None, s.next + 1)
  {
    LinkedNoteInPlaceIff(c, p);
    DamusHost(c, p);
    hide ScanUrl, NostrStr;
    NothingBehindO(c, ScanUrl(c, p).find.value.at - 1);
  }

  /** Where a stray link is come to, they do overlap: the note is pushed, and text from
      before its end as well. */
  lemma StrayOverlaps(c: Bytes, start: nat, p: nat)
    requires start <= p < |c| && StrayTurn(c, p)
    ensures !InOrder(FindsFrom(c, start, p))
  {
    hide Turn, StrayTurn, Within, InOrder;
    AfterStray(c, p);
    var s := Turn(c, p);
    PendingText(c, s.next, s.next + 1);
    TurnMoves(c, p);
    Overlap(FindsFrom(c, start, p), TextOf(start, p), s.find.value, FindsFrom(c, s.next, s.next));
  }

  lemma InOrderRest(head: seq<Find>, fs: seq<Find>)
    requires InOrder(head + fs)
    ensures InOrder(fs)
  {
    forall i, j | 0 <= i < j < |fs| && Spans(fs[i]) && Spans(fs[j]) ensures End(fs[i]) <= Begin(fs[j]) {
      assert (head + fs)[|head| + i] == fs[i] && (head + fs)[|head| + j] == fs[j];
    }
  }

  lemma StepInOrder(c: Bytes, start: nat, p: nat)
    requires start <= p < |c| && Turn(c, p).find.Some? && !StrayTurn(c, p)
    requires var next := Turn(c, p).next;
      InOrder(FindsFrom(c, next, next)) && BeginFrom(FindsFrom(c, next, next), next)
    ensures InOrder(FindsFrom(c, start, p)) && BeginFrom(FindsFrom(c, start, p), start)
  {
    hide Turn, StrayTurn, Within;
    TurnMoves(c, p);
    var s := Turn(c, p);
    if Spans(s.find.value) { TurnInPlace(c, p); }
    InOrderCons(s.find.value, FindsFrom(c, s.next, s.next), p, s.next);
    TextInOrder(start, p, [s.find.value] + FindsFrom(c, s.next, s.next));
  }

  /** The spans of all that is found, texts included, come in order and do not overlap, if
      and only if no stray link comes up. */
  lemma {:induction false} InOrderIff(c: Bytes, start: nat, p: nat)
    requires start <= p <= |c|
    ensures InOrder(FindsFrom(c, start, p)) <==> !StrayFrom(c, p)
    ensures !StrayFrom(c, p) ==> BeginFrom(FindsFrom(c, start, p), start)
    decreases |c| - p
  {
    hide Turn, StrayTurn, Within, InOrder, BeginFrom;
    if p == |c| {
      TextInOrder(start, p, []);
      assert TextOf(start, p) + [] == TextOf(start, p);
    } else {
      TurnMoves(c, p);
      var s := Turn(c, p);
      InOrderIff(c, if s.find.Some? then s.next else start, s.next);
      if StrayTurn(c, p) {
        StrayOverlaps(c, start, p);
      } else if s.find.Some? {
        if StrayFrom(c, s.next) {
          assert FindsFrom(c, start, p) == (TextOf(start, p) + [s.find.value]) + FindsFrom(c, s.next, s.next);
          if InOrder(FindsFrom(c, start, p)) {
            InOrderRest(TextOf(start, p) + [s.find.value], FindsFrom(c, s.next, s.next));
          }
        } else {
          StepInOrder(c, start, p);
        }
      }
    }
  }

  lemma {:induction false} UntilIs(c: Bytes, p: nat, q: nat, stop: Stop)
    requires p <= q <= |c| && (forall k :: p <= k < q ==> !Stops(c, k, stop)) && (q < |c| ==> Stops(c, q, stop))
    ensures Until(c, p, stop) == q
    decreases q - p
  {
    if p < q { UntilIs(c, p + 1, q, stop); }
  }

  /** "http://damus.io:npub" and 60 letters: a stray link. */
  function StrayContent(): (c: Bytes)
    ensures |c| == 80 && forall k :: 20 <= k < 80 ==> c[k] == 113
  {
    [104, 116, 116, 112, 58, 47, 47, 100, 97, 109, 117, 115, 46, 105, 111, 58, 110, 112, 117, 98] + seq(60, _ => 113)
  }

  lemma StrayScheme(c: Bytes)
    requires c == StrayContent()
    ensures SchemeEnd(c, 0) == Some(7) && Starts(c, 7, "damus.io")
  {
    assert StrAt(c, 0, "http");
    assert StrAt(c, 4, "://");
  }

  predicate HostByte(b: nat)
  {
    Alnum(b) || b == 46
  }

  lemma StrayHostBytes(c: Bytes)
    requires c == StrayContent()
    ensures |c| == 80 && c[15] == 58 && forall k :: 7 <= k < 15 ==> HostByte(c[k])
  {
  }

  lemma StrayHost(c: Bytes)
    requires c == StrayContent()
    ensures Until(c, 7, AtHostEnd) == 15
  {
    hide Until, StrayContent;
    StrayHostBytes(c);
    UntilIs(c, 7, 15, AtHostEnd);
  }

  lemma StrayNote(c: Bytes)
    requires c == StrayContent()
    ensures NostrStr(c, 16) == Some((2, 80))
  {
    assert Starts(c, 16, "npub");
    assert c[17] == 112;
    StartsAt(c, 16, "note");
    hide Until, Starts;
    assert forall k :: 16 <= k < 20 ==> Alnum(c[k]);
    UntilIs(c, 16, 80, AtNonAlnum);
  }

  /** So there is a content where spans overlap. */
  lemma StrayExample()
    ensures StrayTurn(StrayContent(), 0) && !InOrder(Finds(StrayContent()))
  {
    hide StrAt, Starts, SchemeEnd, Until, NostrStr, InOrder, FindsFrom;
    var c := StrayContent();
    StrayScheme(c);
    StrayHost(c);
    StrayNote(c);
    assert Is(c, 15, ':') && Is(c, 0, 'h');
    assert UrlOrMention(c, 0, 7, 15, 15) == Bech32(16, 64, 2);
    StrayOverlaps(c, 0, 0);
  }

  // ---- the scanners as they move the cursor ----

  class Cursor {
    const c: Bytes
    var p: nat

    ghost predicate Valid()
      reads this
    {
      p <= |c|
    }

    constructor (content: Bytes)
      ensures Valid() && c == content && p == 0
    {
      c := content;
      p := 0;
    }

    method ParseChar(ch: char) returns (ok: bool)
      requires Valid()
      modifies this
      ensures Valid() && ok == Is(c, old(p), ch) && p == old(p) + if ok then 1 else 0
    {
      ok := p < |c| && c[p] == ch as int;
      if ok { p := p + 1; }
    }

    method ParseStr(s: string) returns (ok: bool)
      requires Valid()
      modifies this
      ensures Valid() && ok == StrAt(c, old(p), s) && p == old(p) + if ok then |s| else 0
    {
      if p + |s| >= |c| {
        return false;
      }
      var i := 0;
      while i < |s|
        invariant 0 <= i <= |s| && p == old(p)
        invariant forall k :: 0 <= k < i ==> Lower(c[p + k]) == s[k] as int
      {
        if Lower(c[p + i]) != s[i] as int {
          return false;
        }
        i := i + 1;
      }
      p := p + |s|;
      return true;
    }

    method ParseDigit() returns (d: Option<nat>)
      requires Valid()
      modifies this
      ensures Valid() && d == DigitAt(c, old(p)) && p == old(p) + if d.Some? then 1 else 0
    {
      d := None;
      if p < |c| && 48 <= c[p] <= 57 {
        d := Some(c[p] - 48);
        p := p + 1;
      }
    }

    method ConsumeUntil(stop: Stop)
      requires Valid()
      modifies this
      ensures Valid() && p == Until(c, old(p), stop) && old(p) <= p
    {
      while p < |c| && !Stops(c, p, stop)
        invariant old(p) <= p <= |c|
        invariant Until(c, old(p), stop) == Until(c, p, stop)
      {
        p := p + 1;
      }
    }

    method ConsumeUntilBoundary()
      requires Valid()
      modifies this
      ensures Valid() && p == BoundaryFrom(c, old(p)) && old(p) <= p
    {
      while p < |c|
        invariant old(p) <= p <= |c|
        invariant BoundaryFrom(c, old(p)) == BoundaryFrom(c, p)
        decreases |c| - p
      {
        if White(c[p]) {
          return;
        }
        var u := Utf8(c, p);
        if u.None? || RightBoundary(u.value.0) {
          return;
        }
        p := p + u.value.1;
      }
    }

    method ParseMentionIndex() returns (f: Option<Find>)
      requires Valid() && p < |c|
      modifies this
      ensures Valid() && Scan(f, p) == ScanIndex(c, old(p)) && (f.None? ==> p == old(p))
    {
      hide StrAt, Within;
      var start := p;
      f := None;
      var open := ParseStr("#[");
      if open {
        var d1 := ParseDigit();
        if d1.None? {
          p := start;
          return;
        }
        var index := d1.value;
        var d2 := ParseDigit();
        if d2.Some? { index := d1.value * 10 + d2.value; }
        var d3 := ParseDigit();
        if d3.Some? { index := d1.value * 100 + d2.value * 10 + d3.value; }
        var closed := ParseChar(']');
        if !closed {
          p := start;
          return;
        }
        f := Some(Plain(MentionIndex(index)));
      }
    }

    method ParseHashtag() returns (f: Option<Find>)
      requires Valid() && p < |c|
      modifies this
      ensures Valid() && Scan(f, p) == ScanHashtag(c, old(p)) && (f.None? ==> p == old(p))
    {
      hide BoundaryFrom, Within;
      var start := p;
      f := None;
      var hash := ParseChar('#');
      if hash {
        if p == |c| || White(c[p]) || c[p] == 35 {
          p := start;
          return;
        }
        ConsumeUntilBoundary();
        f := Some(Plain(Hashtag(start + 1, p - (start + 1))));
      }
    }

    method ConsumeUrlPath()
      requires Valid()
      modifies this
      ensures Valid() && p == PathEnd(c, old(p)) && old(p) <= p
    {
      if Is(c, p, '/') { ConsumeUntil(AtPathEnd); }
    }

    method ConsumeUrlFragment() returns (ok: bool)
      requires Valid()
      modifies this
      ensures Valid() && ok == FragmentEnd(c, old(p)).Some? && old(p) <= p
      ensures ok ==> Some(p) == FragmentEnd(c, old(p))
    {
      ok := true;
      if Is(c, p, '#') || Is(c, p, '?') {
        p := p + 1;
        var start := p;
        ConsumeUntil(AtUrlEnd);
        ok := p == |c| || p != start;
      }
    }

    /** The "http://" or "https://" of a url. */
    method ParseScheme() returns (ok: bool)
      requires Valid() && p < |c|
      modifies this
      ensures Valid() && old(p) <= p && ok == SchemeEnd(c, old(p)).Some?
      ensures ok ==> Some(p) == SchemeEnd(c, old(p))
    {
      ok := ParseStr("http");
      if ok {
        ok := ParseChar('s');
        if !ok { ok := ParseChar('S'); }
        ok := ParseStr("://");
      }
    }

    method ParseUrl() returns (f: Option<Find>)
      requires Valid() && p < |c|
      modifies this
      ensures Valid() && Scan(f, p) == ScanUrl(c, old(p)) && (f.None? ==> p == old(p))
    {
      hide SchemeEnd, Until, PathEnd, FragmentEnd, UrlOrMention, Within;
      var start: int := p;
      f := None;
      var ok := ParseScheme();
      if ok {
        var host := p;
        ConsumeUntil(AtHostEnd);
        var path := p;
        ok := path != host;
        if ok {
          ConsumeUrlPath();
          ok := ConsumeUrlFragment();
        }
        if ok {
          if Is(c, start - 1, '(') && Is(c, p - 1, ')') {
            p := p - 1;
          }
          f := Some(UrlOrMention(c, start, host, path, p));
        }
      }
      if f.None? {
        p := start;
      }
    }

    method ParseInvoice() returns (f: Option<Find>)
      requires Valid() && p < |c|
      modifies this
      ensures Valid() && Scan(f, p) == ScanInvoice(c, old(p)) && (f.None? ==> p < |c|)
    {
      hide StrAt, Until, Within;
      f := None;
      var optional := ParseStr("lightning:");
      var start := p;
      var ok := ParseStr("lnbc");
      if ok {
        ConsumeUntil(AtWhite);
        if p == start + 4 {
          p := start;
          return;
        }
        f := Some(Bolt11(start, p - start));
      }
    }

    method ParseMention() returns (f: Option<Find>)
      requires Valid() && p < |c|
      modifies this
      ensures Valid() && Scan(f, p) == ScanMention(c, old(p)) && (f.None? ==> p == old(p))
    {
      hide StrAt, Until, NostrStr, Within;
      var start := p;
      f := None;
      var optional := ParseChar('@');
      optional := ParseStr("nostr:");
      match NostrStr(c, p) {
        case None =>
          p := start;
        case Some((kind, end)) =>
          f := Some(Bech32(p, end - p, kind));
          p := end;
      }
    }

    /** The conditions in the loop of `ndb_parse_content`, up to where a find is pushed. */
    method ParseTurn() returns (f: Option<Find>)
      requires Valid() && p < |c|
      modifies this
      ensures Valid() && Scan(f, p) == Turn(c, old(p))
    {
      hide ScanIndex, ScanHashtag, ScanUrl, ScanInvoice, ScanMention, Within, LeftBoundary;
      var before := CharAt(c, p - 1);
      f := None;
      if before == -1 || LeftBoundary(before) || Is(c, p, '#') {
        if Is(c, p, '#') {
          f := ParseMentionIndex();
          if f.None? { f := ParseHashtag(); }
        } else if Is(c, p, 'h') || Is(c, p, 'H') {
          f := ParseUrl();
        } else if Is(c, p, 'l') || Is(c, p, 'L') {
          f := ParseInvoice();
        } else if Is(c, p, 'n') || Is(c, p, '@') {
          f := ParseMention();
        }
      }
      if f.None? {
        p := p + 1;
      }
    }
  }
}
