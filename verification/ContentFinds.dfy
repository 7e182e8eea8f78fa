/** What the scanners of a note's content find, said of the bytes alone. */
module ContentFinds {
  import opened Tables
  import opened Notes
  import opened Varints
  import opened Blocks
  import opened ContentScan

  // ---- bytes and characters ----

  /** White space, of a byte or of a code point's low byte. */
  predicate Blank(c: nat)
  {
    c % 256 == ' ' as nat || 0x09 <= c % 256 <= 0x0D
  }

  predicate LetterOrDigit(b: nat)
  {
    '0' as nat <= b <= '9' as nat || 'A' as nat <= b <= 'Z' as nat || 'a' as nat <= b <= 'z' as nat
  }

  /** A printable ASCII character that is no letter, digit, space or underscore. */
  predicate Punctuation(c: nat)
  {
    ' ' as nat < c < 0x7F && !LetterOrDigit(c) && c != '_' as nat
  }

  // First and last code points of the blocks whose characters end a word: punctuation of
  // Latin-1, general punctuation, currency symbols, supplemental punctuation, CJK
  // punctuation, ideographic description.
  const PUNCTUATION_BLOCKS: seq<(nat, nat)> :=
    [(0xA0, 0xBF), (0x2000, 0x206F), (0x20A0, 0x20CF), (0x2E00, 0x2E7F), (0x3000, 0x303F), (0x2FF0, 0x2FFF)]

  const WAVE_DASH := 0x301C
  const FULLWIDTH_TILDE := 0xFF5E

  predicate InPunctuationBlock(c: nat)
  {
    exists i :: 0 <= i < |PUNCTUATION_BLOCKS| && PUNCTUATION_BLOCKS[i].0 <= c <= PUNCTUATION_BLOCKS[i].1
  }

  /** What ends a word. Code points whose low byte is white space do so too, and those
      whose low byte is an underscore never do. */
  predicate EndsWord(c: nat)
  {
    || Blank(c)
    || Punctuation(c)
    || (InPunctuationBlock(c) && c != WAVE_DASH && c != FULLWIDTH_TILDE && c % 256 != '_' as nat)
  }

  lemma BoundaryEndsWord(c: nat)
    ensures RightBoundary(c) <==> EndsWord(c)
    ensures White(c) <==> Blank(c)
    ensures c < 128 ==> (RightBoundary(c) <==> Blank(c) || Punctuation(c))
  {
    var bs := PUNCTUATION_BLOCKS;
    assert bs[0] == (0xA0, 0xBF) && bs[1] == (0x2000, 0x206F) && bs[2] == (0x20A0, 0x20CF);
    assert bs[3] == (0x2E00, 0x2E7F) && bs[4] == (0x3000, 0x303F) && bs[5] == (0x2FF0, 0x2FFF);
  }

  lemma AlnumIs(b: nat)
    ensures Alnum(b) <==> LetterOrDigit(b)
  {
  }

  predicate Tail(b: nat)
  {
    0x80 <= b < 0xC0
  }

  /** `b` is one character of UTF-8 (RFC 3629, section 3; longer forms than needed pass). */
  predicate IsChar(b: seq<nat>, code: nat)
  {
    || (|b| == 1 && b[0] < 0x80 && code == b[0])
    || (|b| == 2 && 0xC0 <= b[0] < 0xE0 && Tail(b[1]) && code == (b[0] - 0xC0) * 0x40 + (b[1] - 0x80))
    || (|b| == 3 && 0xE0 <= b[0] < 0xF0 && Tail(b[1]) && Tail(b[2])
        && code == (b[0] - 0xE0) * 0x1000 + (b[1] - 0x80) * 0x40 + (b[2] - 0x80))
    || (|b| == 4 && 0xF0 <= b[0] < 0xF8 && Tail(b[1]) && Tail(b[2]) && Tail(b[3])
        && code == (b[0] - 0xF0) * 0x4_0000 + (b[1] - 0x80) * 0x1000 + (b[2] - 0x80) * 0x40 + (b[3] - 0x80))
  }

  /** The character of `n` bytes at `p`. */
  predicate CharIs(c: Bytes, p: nat, n: nat, code: nat)
  {
    p + n <= |c| && IsChar(c[p..p + n], code)
  }

  /** Reading a character reads exactly that. */
  lemma Utf8Iff(c: Bytes, p: nat, n: nat, code: nat)
    requires p < |c|
    ensures Utf8(c, p) == Some((code, n)) <==> CharIs(c, p, n, code)
  {
    var u := Utf8(c, p);
    if p + n <= |c| {
      var b := c[p..p + n];
      assert forall k :: 0 <= k < n ==> b[k] == c[p + k];
      if 0 < n <= 4 { CharOf(c, p, n, code); }
    }
  }

  lemma CharOf(c: Bytes, p: nat, n: nat, code: nat)
    requires p + n <= |c| && 1 <= n <= 4
    ensures IsChar(c[p..p + n], code) <==> Utf8(c, p) == Some((code, n))
  {
    LowBits(c[p]);
    if n == 1 {
      CharOf1(c, p, code);
    } else {
      LowBits(c[p + 1]);
      if n == 2 {
        CharOf2(c, p, code);
      } else {
        LowBits(c[p + 2]);
        if n == 3 {
          CharOf3(c, p, code);
        } else {
          LowBits(c[p + 3]);
          CharOf4(c, p, code);
        }
      }
    }
  }

  /** The bits below the mark of a byte. */
  ghost predicate Marked(b: nat)
  {
    && (Tail(b) ==> b % 64 == b - 0x80)
    && (0xC0 <= b < 0xE0 ==> b % 32 == b - 0xC0)
    && (0xE0 <= b < 0xF0 ==> b % 16 == b - 0xE0)
    && (0xF0 <= b < 0xF8 ==> b % 8 == b - 0xF0)
  }

  lemma LowBits(b: nat)
    ensures Marked(b)
  {
  }

  lemma CharOf1(c: Bytes, p: nat, code: nat)
    requires p + 1 <= |c|
    ensures IsChar(c[p..p + 1], code) <==> Utf8(c, p) == Some((code, 1))
  {
    assert c[p..p + 1][0] == c[p];
  }

  lemma CharOf2(c: Bytes, p: nat, code: nat)
    requires p + 2 <= |c| && Marked(c[p]) && Marked(c[p + 1])
    ensures IsChar(c[p..p + 2], code) <==> Utf8(c, p) == Some((code, 2))
  {
    var b := c[p..p + 2];
    assert b[0] == c[p] && b[1] == c[p + 1];
  }

  lemma CharOf3(c: Bytes, p: nat, code: nat)
    requires p + 3 <= |c| && Marked(c[p]) && Marked(c[p + 1]) && Marked(c[p + 2])
    ensures IsChar(c[p..p + 3], code) <==> Utf8(c, p) == Some((code, 3))
  {
    var b := c[p..p + 3];
    assert b[0] == c[p] && b[1] == c[p + 1] && b[2] == c[p + 2];
  }

  lemma CharOf4(c: Bytes, p: nat, code: nat)
    requires p + 4 <= |c| && Marked(c[p]) && Marked(c[p + 1]) && Marked(c[p + 2]) && Marked(c[p + 3])
    ensures IsChar(c[p..p + 4], code) <==> Utf8(c, p) == Some((code, 4))
  {
    var b := c[p..p + 4];
    assert b[0] == c[p] && b[1] == c[p + 1] && b[2] == c[p + 2] && b[3] == c[p + 3];
  }

  /** `b` spells the code points `codes`. */
  ghost predicate Spells(b: seq<nat>, codes: seq<nat>)
    decreases |codes|
  {
    if codes == [] then b == []
    else exists n :: 1 <= n <= |b| && IsChar(b[..n], codes[0]) && Spells(b[n..], codes[1..])
  }

  /** No character that goes on with a word begins at `q`. */
  ghost predicate WordEnds(c: Bytes, q: nat)
  {
    forall n, code :: CharIs(c, q, n, code) ==> EndsWord(code)
  }

  /** From `p` to `q` there is a word of whole characters, as long as can be. */
  ghost predicate WordIs(c: Bytes, p: nat, q: nat)
  {
    && p <= q <= |c|
    && (exists codes :: Spells(c[p..q], codes) && forall i :: 0 <= i < |codes| ==> !EndsWord(codes[i]))
    && WordEnds(c, q)
  }

  lemma NoCharAtEnd(c: Bytes, n: nat, code: nat)
    ensures !CharIs(c, |c|, n, code)
  {
  }

  lemma {:induction false} BoundaryFromIs(c: Bytes, p: nat)
    requires p <= |c|
    ensures WordIs(c, p, BoundaryFrom(c, p))
    decreases |c| - p
  {
    hide Utf8, RightBoundary, EndsWord, CharIs;
    var q := BoundaryFrom(c, p);
    if p == |c| {
      assert Spells(c[p..q], []);
      forall n, code ensures !CharIs(c, p, n, code) { NoCharAtEnd(c, n, code); }
    } else if q == p {
      assert Spells(c[p..q], []);
      StopsWord(c, p);
    } else {
      var (code, n) := Utf8(c, p).value;
      BoundaryFromIs(c, p + n);
      Utf8Iff(c, p, n, code);
      BoundaryEndsWord(code);
      WordGrows(c, p, n, q, code);
    }
  }

  lemma WordGrows(c: Bytes, p: nat, n: nat, q: nat, code: nat)
    requires 1 <= n && p + n <= |c| && CharIs(c, p, n, code) && !EndsWord(code) && WordIs(c, p + n, q)
    ensures WordIs(c, p, q)
  {
    hide IsChar, CharIs, EndsWord, WordEnds;
    var codes :| Spells(c[p + n..q], codes) && forall i :: 0 <= i < |codes| ==> !EndsWord(codes[i]);
    SpellsCons(c, p, n, q, code, codes);
  }

  lemma StopsWord(c: Bytes, p: nat)
    requires p < |c| && BoundaryFrom(c, p) == p
    ensures WordEnds(c, p)
  {
    hide RightBoundary, EndsWord, Utf8, CharIs;
    forall n, code | CharIs(c, p, n, code) ensures EndsWord(code) {
      Utf8Iff(c, p, n, code);
      BoundaryEndsWord(code);
      WhiteIsChar(c, p);
    }
  }

  lemma WhiteIsChar(c: Bytes, p: nat)
    requires p < |c|
    ensures White(c[p]) && Utf8(c, p).Some? ==> RightBoundary(Utf8(c, p).value.0)
  {
  }

  lemma SpellsCons(c: Bytes, p: nat, n: nat, q: nat, code: nat, codes: seq<nat>)
    requires 1 <= n && p + n <= q <= |c| && CharIs(c, p, n, code) && Spells(c[p + n..q], codes)
    ensures Spells(c[p..q], [code] + codes)
  {
    hide IsChar;
    var b := c[p..q];
    assert b[..n] == c[p..p + n] && b[n..] == c[p + n..q];
    assert ([code] + codes)[0] == code && ([code] + codes)[1..] == codes;
  }

  // ---- text ----

  predicate Reads(c: Bytes, p: nat, s: string)
  {
    p + |s| <= |c| && forall i :: 0 <= i < |s| ==> c[p + i] == s[i] as nat
  }

  predicate SameLetter(b: nat, ch: char)
  {
    b == ch as nat || ('a' <= ch <= 'z' && b + 32 == ch as nat)
  }

  /** In letters of any case. */
  predicate ReadsAnyCase(c: Bytes, p: nat, s: string)
  {
    p + |s| <= |c| && forall i :: 0 <= i < |s| ==> SameLetter(c[p + i], s[i])
  }

  predicate LowerCase(s: string)
  {
    forall i :: 0 <= i < |s| ==> !('A' <= s[i] <= 'Z')
  }

  /** The scanners want one more byte behind what they match in any case. */
  lemma StrAtIff(c: Bytes, p: nat, s: string)
    requires LowerCase(s)
    ensures StrAt(c, p, s) <==> ReadsAnyCase(c, p, s) && p + |s| < |c|
  {
    if p + |s| < |c| {
      forall i | 0 <= i < |s| ensures Lower(c[p + i]) == s[i] as int <==> SameLetter(c[p + i], s[i]) {
      }
      if ReadsAnyCase(c, p, s) {
        forall i | 0 <= i < |s| ensures Lower(c[p + i]) == s[i] as int {
          assert SameLetter(c[p + i], s[i]);
        }
      }
    }
  }

  lemma StartsIff(c: Bytes, p: nat, s: string)
    ensures Starts(c, p, s) <==> Reads(c, p, s)
  {
  }

  // ---- index mentions ----

  predicate Digits(s: seq<nat>)
  {
    forall i :: 0 <= i < |s| ==> '0' as nat <= s[i] <= '9' as nat
  }

  function Decimal(s: seq<nat>): nat
    requires Digits(s)
  {
    if s == [] then 0 else 10 * Decimal(s[..|s| - 1]) + (s[|s| - 1] - '0' as nat)
  }

  /** "#[", `n` digits, "]". */
  predicate IndexText(c: Bytes, p: nat, n: nat)
  {
    && 1 <= n <= 3 && p + n + 3 <= |c|
    && c[p] == '#' as nat && c[p + 1] == '[' as nat && Digits(c[p + 2..p + 2 + n]) && c[p + 2 + n] == ']' as nat
  }

  ghost predicate IndexAt(c: Bytes, p: nat, f: Find, next: nat)
  {
    exists n :: IndexText(c, p, n) && next == p + n + 3 && f == Plain(MentionIndex(Decimal(c[p + 2..p + 2 + n])))
  }

  function Upto3(c: Bytes, p: nat, n: nat): int
    requires p + n <= |c| && n <= 3
  {
    if n == 0 then 0
    else if n == 1 then DigitOf(c[p])
    else if n == 2 then DigitOf(c[p]) * 10 + DigitOf(c[p + 1])
    else DigitOf(c[p]) * 100 + DigitOf(c[p + 1]) * 10 + DigitOf(c[p + 2])
  }

  function DigitOf(b: int): int
  {
    b - '0' as int
  }

  lemma DigitsAre(c: Bytes, p: nat, n: nat)
    requires p + n <= |c| && n <= 3
    ensures Digits(c[p..p + n]) <==> forall i :: p <= i < p + n ==> '0' as nat <= c[i] <= '9' as nat
    ensures Digits(c[p..p + n]) ==> Decimal(c[p..p + n]) == Upto3(c, p, n)
  {
    var s := c[p..p + n];
    assert forall i :: 0 <= i < n ==> s[i] == c[p + i];
    if Digits(s) {
      forall i | p <= i < p + n ensures '0' as nat <= c[i] <= '9' as nat {
        assert s[i - p] == c[i];
      }
      if n > 0 {
        DigitsAre(c, p, n - 1);
        assert s[..n - 1] == c[p..p + (n - 1)];
      }
    }
  }

  lemma HashBracket(c: Bytes, p: nat)
    ensures StrAt(c, p, "#[") <==> p + 2 < |c| && c[p] == '#' as nat && c[p + 1] == '[' as nat
  {
    if p + 2 < |c| {
      assert c[p + 0] == c[p];
      assert "#["[0] == '#' && "#["[1] == '[';
      if StrAt(c, p, "#[") { assert Lower(c[p + 0]) == 35 && Lower(c[p + 1]) == 91; }
    }
  }

  /** An index mention is found exactly where "#[", one to three digits and "]" stand; it
      is the number they spell, and the cursor is left behind the bracket. */
  lemma IndexIff(c: Bytes, p: nat)
    requires p < |c|
    ensures forall f, next :: ScanIndex(c, p) == Scan(Some(f), next) <==> IndexAt(c, p, f, next)
    ensures ScanIndex(c, p).find.None? ==> ScanIndex(c, p).next == p
  {
    hide StrAt, Decimal, Digits, Within;
    HashBracket(c, p);
    forall n | IndexText(c, p, n) ensures ScanIndex(c, p) == Scan(Some(Plain(MentionIndex(Decimal(c[p + 2..p + 2 + n])))), p + n + 3) {
      DigitsAre(c, p + 2, n);
    }
    if ScanIndex(c, p).find.Some? {
      var n: nat := ScanIndex(c, p).next - p - 3;
      DigitsAre(c, p + 2, n);
      assert IndexText(c, p, n);
    }
  }

  // ---- hashtags ----

  /** A "#" that neither white space nor another one follows, and the word behind it, which
      may be empty. */
  ghost predicate HashtagAt(c: Bytes, p: nat, f: Find, next: nat)
  {
    && p + 1 < |c| && c[p] == '#' as nat && !Blank(c[p + 1]) && c[p + 1] != '#' as nat
    && WordIs(c, p + 1, next) && f == Plain(Hashtag(p + 1, next - (p + 1)))
  }

  lemma WordIsOne(c: Bytes, p: nat, q: nat, r: nat)
    requires WordIs(c, p, q) && WordIs(c, p, r)
    ensures q == r
  {
    if q < r {
      WordsNotShorter(c, p, q, r);
    } else if r < q {
      WordsNotShorter(c, p, r, q);
    }
  }

  lemma WordsNotShorter(c: Bytes, p: nat, q: nat, r: nat)
    requires WordIs(c, p, q) && WordIs(c, p, r)
    ensures q >= r
  {
    hide IsChar, EndsWord;
    var a :| Spells(c[p..q], a) && forall i :: 0 <= i < |a| ==> !EndsWord(a[i]);
    var b :| Spells(c[p..r], b) && forall i :: 0 <= i < |b| ==> !EndsWord(b[i]);
    WordsAgree(c, p, q, r, a, b);
  }

  lemma {:induction false} WordsAgree(c: Bytes, p: nat, q: nat, r: nat, a: seq<nat>, b: seq<nat>)
    requires p <= q <= |c| && p <= r <= |c| && Spells(c[p..q], a) && Spells(c[p..r], b) && WordEnds(c, q)
    requires forall i :: 0 <= i < |b| ==> !EndsWord(b[i])
    ensures q >= r
    decreases |b|
  {
    hide IsChar, EndsWord;
    if b != [] {
      assert a == [] ==> p == q;
      var m :| 1 <= m <= r - p && IsChar(c[p..r][..m], b[0]) && Spells(c[p..r][m..], b[1..]);
      assert c[p..r][..m] == c[p..p + m] && c[p..r][m..] == c[p + m..r];
      assert CharIs(c, p, m, b[0]);
      if a != [] {
        var n :| 1 <= n <= q - p && IsChar(c[p..q][..n], a[0]) && Spells(c[p..q][n..], a[1..]);
        assert c[p..q][..n] == c[p..p + n] && c[p..q][n..] == c[p + n..q];
        assert CharIs(c, p, n, a[0]);
        Utf8Iff(c, p, m, b[0]);
        Utf8Iff(c, p, n, a[0]);
        WordsAgree(c, p + n, q, r, a[1..], b[1..]);
      }
    }
  }

  /** A hashtag is found exactly where one stands, and it is the word behind the "#". */
  lemma HashtagIff(c: Bytes, p: nat)
    requires p < |c|
    ensures forall f, next :: ScanHashtag(c, p) == Scan(Some(f), next) <==> HashtagAt(c, p, f, next)
    ensures ScanHashtag(c, p).find.None? ==> ScanHashtag(c, p).next == p
  {
    hide White, Blank, BoundaryFrom, WordIs;
    if p + 1 < |c| {
      BoundaryEndsWord(c[p + 1]);
      var q := BoundaryFrom(c, p + 1);
      BoundaryFromIs(c, p + 1);
      forall f, next | HashtagAt(c, p, f, next) ensures next == q {
        WordIsOne(c, p + 1, next, q);
      }
    }
  }

  // ---- urls ----

  predicate HostChar(b: nat)
  {
    LetterOrDigit(b) || b == '.' as nat || b == '-' as nat
  }

  /** White space, or a full stop or comma with white space or nothing behind it. */
  predicate UrlStops(c: Bytes, k: nat)
    requires k < |c|
  {
    Blank(c[k]) || ((c[k] == '.' as nat || c[k] == ',' as nat) && (k + 1 == |c| || Blank(c[k + 1])))
  }

  predicate SchemeIs(c: Bytes, p: nat, host: nat)
  {
    host < |c| && ((host == p + 7 && ReadsAnyCase(c, p, "http://")) || (host == p + 8 && ReadsAnyCase(c, p, "https://")))
  }

  predicate HostIs(c: Bytes, host: nat, path: nat)
  {
    && host < path <= |c|
    && (forall k :: host <= k < path ==> HostChar(c[k]) && !UrlStops(c, k))
    && (path < |c| ==> !HostChar(c[path]) || UrlStops(c, path))
  }

  /** A path begins with a "/" and goes on to a query, a fragment, or the url's end. */
  predicate PathIs(c: Bytes, path: nat, query: nat)
  {
    && path <= query <= |c|
    && if path < |c| && c[path] == '/' as nat then
         && (forall k :: path <= k < query ==> c[k] != '?' as nat && c[k] != '#' as nat && !UrlStops(c, k))
         && (query < |c| ==> c[query] == '?' as nat || c[query] == '#' as nat || UrlStops(c, query))
       else query == path
  }

  /** A query or fragment goes on to the url's end, and is empty only where the text ends. */
  predicate FragmentIs(c: Bytes, query: nat, end: nat)
  {
    && query <= end <= |c|
    && if query < |c| && (c[query] == '?' as nat || c[query] == '#' as nat) then
         && query < end
         && (forall k :: query < k < end ==> !UrlStops(c, k))
         && (end < |c| ==> UrlStops(c, end) && query + 1 < end)
       else end == query
  }

  /** The parts of a url at `p`; in parentheses the closing one is no part of it. */
  predicate UrlParts(c: Bytes, p: nat, host: nat, path: nat, query: nat, end: nat, next: nat)
  {
    && SchemeIs(c, p, host) && HostIs(c, host, path) && PathIs(c, path, query) && FragmentIs(c, query, end)
    && p < next
    && next == if 0 < p <= |c| && c[p - 1] == '(' as nat && 0 < end && c[end - 1] == ')' as nat then end - 1 else end
  }

  // Prefixes of bech32 strings, and the number of each type.
  const NOTE_PREFIXES: seq<(string, nat)> :=
    [("note", 1), ("npub", 2), ("nprofile", 3), ("nevent", 4), ("nrelay", 5), ("naddr", 6), ("nsec", 7)]

  /** From `at` to `end` stands a bech32 string of type `kind`: one of the prefixes, and at
      least 59 letters and digits, up to what is none. */
  predicate NoteIs(c: Bytes, at: nat, end: nat, kind: nat)
  {
    && at <= end <= |c|
    && (exists i :: 0 <= i < |NOTE_PREFIXES| && NOTE_PREFIXES[i].1 == kind
                    && Reads(c, at, NOTE_PREFIXES[i].0) && at + |NOTE_PREFIXES[i].0| + 59 <= end)
    && (forall k :: at <= k < end ==> LetterOrDigit(c[k]))
    && (end < |c| ==> !LetterOrDigit(c[end]))
  }

  ghost predicate HasNote(c: Bytes, at: nat)
  {
    exists end: nat, kind: nat :: NoteIs(c, at, end, kind)
  }

  ghost predicate NoteAt(c: Bytes, at: nat, f: Find)
  {
    exists end: nat, kind: nat :: NoteIs(c, at, end, kind) && f == Bech32(at, end - at, kind)
  }

  /** The url itself, or, with the host damus.io, the note one byte behind the host. */
  ghost predicate FoundInUrl(c: Bytes, p: nat, host: nat, path: nat, next: nat, f: Find)
    requires p <= next
  {
    if path == host + 8 && Reads(c, host, "damus.io") && HasNote(c, path + 1) then NoteAt(c, path + 1, f)
    else f == Plain(Url(p, next - p))
  }

  /** A url at `p`, and what is found for it. */
  ghost predicate UrlAt(c: Bytes, p: nat, f: Find, next: nat)
  {
    exists host: nat, path: nat, query: nat, end: nat ::
      && UrlParts(c, p, host, path, query, end, next)
      && FoundInUrl(c, p, host, path, next, f)
  }

  // ---- notes ----

  /** At `p` or behind "@", "nostr:" or both. */
  predicate NoteMayStartAt(c: Bytes, p: nat, at: nat)
  {
    || at == p
    || (at == p + 1 && ReadsAnyCase(c, p, "@"))
    || (at == p + 6 && ReadsAnyCase(c, p, "nostr:"))
    || (at == p + 7 && ReadsAnyCase(c, p, "@nostr:"))
  }

  predicate MentionOf(c: Bytes, p: nat, f: Find, next: nat, at: nat, kind: nat)
  {
    NoteMayStartAt(c, p, at) && NoteIs(c, at, next, kind) && f == Bech32(at, next - at, kind)
  }

  ghost predicate MentionAt(c: Bytes, p: nat, f: Find, next: nat)
  {
    exists at: nat, kind: nat :: MentionOf(c, p, f, next, at, kind)
  }

  // ---- invoices ----

  /** From `at` to `end`: "lnbc" and at least one more byte, up to white space. */
  predicate InvoiceIs(c: Bytes, at: nat, end: nat)
  {
    && ReadsAnyCase(c, at, "lnbc") && at + 4 < end <= |c|
    && (forall k :: at <= k < end ==> !Blank(c[k]))
    && (end < |c| ==> Blank(c[end]))
  }

  /** An invoice, at `p` or behind "lightning:". */
  ghost predicate InvoiceAt(c: Bytes, p: nat, f: Find, next: nat)
  {
    exists at: nat ::
      && (at == p || (at == p + 10 && ReadsAnyCase(c, p, "lightning:")))
      && InvoiceIs(c, at, next) && f == Bolt11(at, next - at)
  }

  // ---- the scanners find exactly that ----

  lemma StopsIff(c: Bytes, k: nat)
    requires k < |c|
    ensures FinalUrlChar(c, k) <==> UrlStops(c, k)
    ensures Stops(c, k, AtWhite) <==> Blank(c[k])
    ensures Stops(c, k, AtNonAlnum) <==> !LetterOrDigit(c[k])
    ensures Stops(c, k, AtHostEnd) <==> !HostChar(c[k]) || UrlStops(c, k)
    ensures Stops(c, k, AtPathEnd) <==> c[k] == '?' as nat || c[k] == '#' as nat || UrlStops(c, k)
    ensures Stops(c, k, AtUrlEnd) <==> UrlStops(c, k)
  {
    BoundaryEndsWord(c[k]);
    AlnumIs(c[k]);
    if k + 1 < |c| { BoundaryEndsWord(c[k + 1]); }
    hide RightBoundary, EndsWord, White, Blank, Alnum, LetterOrDigit;
  }

  lemma AllStopsIff(c: Bytes)
    ensures forall k, stop :: 0 <= k < |c| ==> (Stops(c, k, stop) <==> StopsAt(c, k, stop))
  {
    hide Stops, UrlStops, HostChar, LetterOrDigit, Blank;
    forall k, stop | 0 <= k < |c| ensures Stops(c, k, stop) <==> StopsAt(c, k, stop) {
      StopsIff(c, k);
    }
  }

  /** Where the consumers of the parts stop. */
  predicate StopsAt(c: Bytes, k: nat, stop: Stop)
    requires k < |c|
  {
    match stop
    case AtWhite => Blank(c[k])
    case AtNonAlnum => !LetterOrDigit(c[k])
    case AtHostEnd => !HostChar(c[k]) || UrlStops(c, k)
    case AtPathEnd => c[k] == '?' as nat || c[k] == '#' as nat || UrlStops(c, k)
    case AtUrlEnd => UrlStops(c, k)
  }

  /** A consumer stops at `q` exactly if nothing before stops it. */
  lemma UntilIff(c: Bytes, p: nat, q: nat, stop: Stop)
    requires p <= |c|
    ensures Until(c, p, stop) == q
       <==> p <= q <= |c| && (forall k :: p <= k < q ==> !StopsAt(c, k, stop)) && (q < |c| ==> StopsAt(c, q, stop))
  {
    hide Stops, StopsAt;
    AllStopsIff(c);
    if p <= q <= |c| && (forall k :: p <= k < q ==> !StopsAt(c, k, stop)) && (q < |c| ==> StopsAt(c, q, stop)) {
      UntilIs(c, p, q, stop);
    }
  }

  lemma HostIff(c: Bytes, host: nat, path: nat)
    requires host <= |c|
    ensures HostIs(c, host, path) <==> path == Until(c, host, AtHostEnd) && path != host
  {
    hide Until, HostChar, UrlStops;
    UntilIff(c, host, path, AtHostEnd);
    assert forall k :: host <= k < |c| ==> (StopsAt(c, k, AtHostEnd) <==> !HostChar(c[k]) || UrlStops(c, k));
  }

  lemma PathIff(c: Bytes, path: nat, query: nat)
    requires path <= |c|
    ensures PathIs(c, path, query) <==> query == PathEnd(c, path)
  {
    hide Until, UrlStops;
    UntilIff(c, path, query, AtPathEnd);
    assert forall k :: path <= k < |c| ==> (StopsAt(c, k, AtPathEnd) <==> c[k] == '?' as nat || c[k] == '#' as nat || UrlStops(c, k));
  }

  lemma FragmentIff(c: Bytes, query: nat, end: nat)
    requires query <= |c|
    ensures FragmentIs(c, query, end) <==> FragmentEnd(c, query) == Some(end)
  {
    hide Until, UrlStops;
    if query < |c| { UntilIff(c, query + 1, end, AtUrlEnd); }
    assert forall k :: query <= k < |c| ==> (StopsAt(c, k, AtUrlEnd) <==> UrlStops(c, k));
  }

  lemma SchemeText(c: Bytes, p: nat)
    ensures ReadsAnyCase(c, p, "http://") <==> ReadsAnyCase(c, p, "http") && ReadsAnyCase(c, p + 4, "://")
    ensures ReadsAnyCase(c, p, "https://")
       <==> ReadsAnyCase(c, p, "http") && ReadsAnyCase(c, p + 4, "s") && ReadsAnyCase(c, p + 5, "://")
  {
    hide ReadsAnyCase;
    TextParts(c, p, "http", "://");
    TextParts(c, p, "http", "s://");
    TextParts(c, p + 4, "s", "://");
    assert "http" + "s://" == "https://" && "s" + "://" == "s://" && "http" + "://" == "http://";
  }

  lemma OneLetter(c: Bytes, p: nat, s: string)
    requires |s| == 1
    ensures ReadsAnyCase(c, p, s) <==> p < |c| && SameLetter(c[p], s[0])
  {
    hide SameLetter;
    assert p < |c| ==> c[p + 0] == c[p];
  }

  lemma TextParts(c: Bytes, p: nat, s: string, t: string)
    ensures ReadsAnyCase(c, p, s + t) <==> ReadsAnyCase(c, p, s) && ReadsAnyCase(c, p + |s|, t)
  {
    hide SameLetter;
    if ReadsAnyCase(c, p, s + t) {
      forall i | 0 <= i < |s| ensures SameLetter(c[p + i], s[i]) {
        assert (s + t)[i] == s[i];
      }
      forall i | 0 <= i < |t| ensures SameLetter(c[p + |s| + i], t[i]) {
        assert (s + t)[|s| + i] == t[i] && c[p + (|s| + i)] == c[p + |s| + i];
      }
    }
    if ReadsAnyCase(c, p, s) && ReadsAnyCase(c, p + |s|, t) {
      forall i | 0 <= i < |s + t| ensures SameLetter(c[p + i], (s + t)[i]) {
        if i >= |s| { assert SameLetter(c[p + |s| + (i - |s|)], t[i - |s|]); }
      }
    }
  }

  lemma SchemeIff(c: Bytes, p: nat, host: nat)
    ensures SchemeIs(c, p, host) <==> SchemeEnd(c, p) == Some(host)
  {
    hide ReadsAnyCase, StrAt;
    StrAtIff(c, p, "http");
    StrAtIff(c, p + 4, "://");
    StrAtIff(c, p + 5, "://");
    SchemeText(c, p);
    OneLetter(c, p + 4, "s");
    ColonIsNoLetter(c, p + 4);
    TextFits(c, p + 4, "://");
    TextFits(c, p + 5, "://");
  }

  lemma TextFits(c: Bytes, p: nat, s: string)
    ensures ReadsAnyCase(c, p, s) ==> p + |s| <= |c|
  {
  }

  lemma ColonIsNoLetter(c: Bytes, p: nat)
    ensures ReadsAnyCase(c, p, "://") ==> !Is(c, p, 's') && !Is(c, p, 'S')
    ensures p < |c| ==> (SameLetter(c[p], 's') <==> Is(c, p, 's') || Is(c, p, 'S'))
  {
    if ReadsAnyCase(c, p, "://") { assert SameLetter(c[p + 0], "://"[0]); }
  }

  // ---- notes ----

  ghost predicate PrefixIs(c: Bytes, p: nat, kind: nat, n: nat)
  {
    exists i :: 0 <= i < |NOTE_PREFIXES| && NOTE_PREFIXES[i].1 == kind && |NOTE_PREFIXES[i].0| == n && Reads(c, p, NOTE_PREFIXES[i].0)
  }

  lemma PrefixTable(c: Bytes, p: nat, kind: nat, n: nat)
    ensures PrefixIs(c, p, kind, n) <==>
      || ((kind, n) == (1, 4) && Reads(c, p, "note")) || ((kind, n) == (2, 4) && Reads(c, p, "npub"))
      || ((kind, n) == (3, 8) && Reads(c, p, "nprofile")) || ((kind, n) == (4, 6) && Reads(c, p, "nevent"))
      || ((kind, n) == (5, 6) && Reads(c, p, "nrelay")) || ((kind, n) == (6, 5) && Reads(c, p, "naddr"))
      || ((kind, n) == (7, 4) && Reads(c, p, "nsec"))
  {
    hide Reads;
    var ps := NOTE_PREFIXES;
    assert ps[0] == ("note", 1) && ps[1] == ("npub", 2) && ps[2] == ("nprofile", 3) && ps[3] == ("nevent", 4);
    assert ps[4] == ("nrelay", 5) && ps[5] == ("naddr", 6) && ps[6] == ("nsec", 7) && |ps| == 7;
  }

  /** The prefixes differ by their third letters at the latest. */
  lemma PrefixLetters(c: Bytes, p: nat, s: string)
    requires |s| >= 3
    ensures Reads(c, p, s) ==> p + 2 < |c| && c[p + 1] == s[1] as nat && c[p + 2] == s[2] as nat
  {
  }

  lemma PrefixIff(c: Bytes, p: nat, kind: nat, n: nat)
    ensures PrefixIs(c, p, kind, n) <==> NostrType(c, p) == Some((kind, n))
  {
    hide Reads, Starts, PrefixIs;
    PrefixTable(c, p, kind, n);
    StartsIff(c, p, "note");
    StartsIff(c, p, "npub");
    StartsIff(c, p, "nsec");
    StartsIff(c, p, "nprofile");
    StartsIff(c, p, "nevent");
    StartsIff(c, p, "nrelay");
    StartsIff(c, p, "naddr");
    PrefixLetters(c, p, "note");
    PrefixLetters(c, p, "npub");
    PrefixLetters(c, p, "nsec");
    PrefixLetters(c, p, "nprofile");
    PrefixLetters(c, p, "nevent");
    PrefixLetters(c, p, "nrelay");
    PrefixLetters(c, p, "naddr");
  }

  lemma NoteHasPrefix(c: Bytes, at: nat, end: nat, kind: nat)
    ensures NoteIs(c, at, end, kind) <==>
      && at <= end <= |c|
      && (exists n :: PrefixIs(c, at, kind, n) && at + n + 59 <= end)
      && (forall k :: at <= k < end ==> LetterOrDigit(c[k]))
      && (end < |c| ==> !LetterOrDigit(c[end]))
  {
    hide Reads, LetterOrDigit;
    if NoteIs(c, at, end, kind) {
      var i :| 0 <= i < |NOTE_PREFIXES| && NOTE_PREFIXES[i].1 == kind
               && Reads(c, at, NOTE_PREFIXES[i].0) && at + |NOTE_PREFIXES[i].0| + 59 <= end;
      assert PrefixIs(c, at, kind, |NOTE_PREFIXES[i].0|);
    }
  }

  /** A bech32 string is read exactly where one stands, with its type. */
  lemma NoteIff(c: Bytes, at: nat, end: nat, kind: nat)
    requires at <= |c|
    ensures NoteIs(c, at, end, kind) <==> NostrStr(c, at) == Some((kind, end))
  {
    hide NoteIs, PrefixIs, NostrType, Until, LetterOrDigit;
    NoteHasPrefix(c, at, end, kind);
    UntilIff(c, at, end, AtNonAlnum);
    assert forall k :: at <= k < |c| ==> (StopsAt(c, k, AtNonAlnum) <==> !LetterOrDigit(c[k]));
    forall n: nat ensures PrefixIs(c, at, kind, n) <==> NostrType(c, at) == Some((kind, n)) {
      PrefixIff(c, at, kind, n);
    }
  }

  predicate ReadNote(c: Bytes, at: nat, f: Find)
    requires at <= |c|
  {
    NostrStr(c, at).Some? && f == Bech32(at, NostrStr(c, at).value.1 - at, NostrStr(c, at).value.0)
  }

  lemma HasNoteIff(c: Bytes, at: nat)
    requires at <= |c|
    ensures HasNote(c, at) <==> NostrStr(c, at).Some?
    ensures forall f :: NoteAt(c, at, f) <==> ReadNote(c, at, f)
  {
    hide NoteIs, NostrStr;
    forall end: nat, kind: nat ensures NoteIs(c, at, end, kind) <==> NostrStr(c, at) == Some((kind, end)) {
      NoteIff(c, at, end, kind);
    }
  }

  lemma NoteNeedsRoom(c: Bytes, at: nat)
    ensures at + 63 > |c| ==> !HasNote(c, at) && (at <= |c| ==> NostrStr(c, at).None?)
  {
    hide Reads, NostrStr, HasNote;
    if at <= |c| {
      HasNoteIff(c, at);
      if NostrStr(c, at).Some? { NoteIsAlnum(c, at); }
    } else {
      NoNoteBeyond(c, at);
    }
  }

  lemma NoNoteBeyond(c: Bytes, at: nat)
    ensures at > |c| ==> !HasNote(c, at)
  {
  }

  // ---- each scanner ----

  /** The parts of a url are determined by where it starts. */
  lemma UrlPartsIff(c: Bytes, p: nat, host: nat, path: nat, query: nat, end: nat, next: nat)
    requires p < |c|
    ensures UrlParts(c, p, host, path, query, end, next) <==>
      && SchemeEnd(c, p) == Some(host) && path == Until(c, host, AtHostEnd) && path != host
      && query == PathEnd(c, path) && FragmentEnd(c, query) == Some(end) && next == SmartEnd(c, p, end)
  {
    hide SchemeIs, HostIs, PathIs, FragmentIs, SchemeEnd, Until, PathEnd, FragmentEnd;
    SchemeIff(c, p, host);
    if host <= |c| {
      HostIff(c, host, path);
      if path <= |c| {
        PathIff(c, path, query);
        if query <= |c| { FragmentIff(c, query, end); }
      }
    }
    PartsInside(c, p, host, path, query, end);
  }

  lemma PartsInside(c: Bytes, p: nat, host: nat, path: nat, query: nat, end: nat)
    ensures SchemeIs(c, p, host) ==> p + 7 <= host < |c|
    ensures HostIs(c, host, path) ==> host < path <= |c|
    ensures PathIs(c, path, query) ==> path <= query <= |c|
    ensures FragmentIs(c, query, end) ==> query <= end <= |c|
  {
  }

  /** A url is found exactly where one stands, as itself or as the note of its link, and the
      cursor is left behind it. */
  lemma UrlIff(c: Bytes, p: nat)
    requires p < |c|
    ensures forall f, next :: ScanUrl(c, p) == Scan(Some(f), next) <==> UrlAt(c, p, f, next)
    ensures ScanUrl(c, p).find.None? ==> ScanUrl(c, p).next == p
  {
    hide UrlParts, SchemeEnd, Until, PathEnd, FragmentEnd, SmartEnd, UrlOrMention, UrlAt, Sound;
    forall f, next: nat | UrlAt(c, p, f, next) ensures ScanUrl(c, p) == Scan(Some(f), next) {
      UrlAtIsScanned(c, p, f, next);
    }
    if ScanUrl(c, p).find.Some? {
      ScannedIsUrlAt(c, p);
    }
  }

  lemma FoundInUrlIff(c: Bytes, p: nat, host: nat, path: nat, next: nat, f: Find)
    requires p <= host <= path <= |c| && p <= next
    ensures FoundInUrl(c, p, host, path, next, f) <==> f == UrlOrMention(c, p, host, path, next)
  {
    hide Reads, Starts, NostrStr, HasNote, NoteAt;
    StartsIff(c, host, "damus.io");
    if path < |c| { HasNoteIff(c, path + 1); }
    NoteNeedsRoom(c, path);
    NoteNeedsRoom(c, path + 1);
  }

  lemma UrlAtIsScanned(c: Bytes, p: nat, f: Find, next: nat)
    requires p < |c| && UrlAt(c, p, f, next)
    ensures ScanUrl(c, p) == Scan(Some(f), next)
  {
    hide UrlParts, SchemeEnd, Until, PathEnd, FragmentEnd, SmartEnd, UrlOrMention, Reads, HasNote, NoteAt, Sound;
    UrlIsAhead(c, p, f, next);
    var host: nat, path: nat, query: nat, end: nat :|
      UrlParts(c, p, host, path, query, end, next) && FoundInUrl(c, p, host, path, next, f);
    UrlPartsIff(c, p, host, path, query, end, next);
    FoundInUrlIff(c, p, host, path, next, f);
  }

  lemma UrlIsAhead(c: Bytes, p: nat, f: Find, next: nat)
    ensures UrlAt(c, p, f, next) ==> p < next
  {
  }

  lemma ScannedIsUrlAt(c: Bytes, p: nat)
    requires p < |c| && ScanUrl(c, p).find.Some?
    ensures UrlAt(c, p, ScanUrl(c, p).find.value, ScanUrl(c, p).next)
  {
    hide UrlParts, SchemeEnd, Until, PathEnd, FragmentEnd, SmartEnd, UrlOrMention, Reads, HasNote, NoteAt, Sound;
    var host := SchemeEnd(c, p).value;
    var path := Until(c, host, AtHostEnd);
    var query := PathEnd(c, path);
    var end := FragmentEnd(c, query).value;
    var s := ScanUrl(c, p);
    UrlPartsIff(c, p, host, path, query, end, s.next);
    FoundInUrlIff(c, p, host, path, s.next, s.find.value);
    assert UrlParts(c, p, host, path, query, end, s.next);
  }

  /** An invoice is found exactly where one stands; where none does, a "lightning:" is
      passed all the same. */
  lemma InvoiceIff(c: Bytes, p: nat)
    requires p < |c|
    ensures forall f, next :: ScanInvoice(c, p) == Scan(Some(f), next) <==> InvoiceAt(c, p, f, next)
    ensures ScanInvoice(c, p).find.None? ==>
      ScanInvoice(c, p).next == if ReadsAnyCase(c, p, "lightning:") && p + 10 < |c| then p + 10 else p
  {
    hide ReadsAnyCase, StrAt, Until, Within;
    StrAtIff(c, p, "lightning:");
    var at := if StrAt(c, p, "lightning:") then p + 10 else p;
    StrAtIff(c, at, "lnbc");
    LightningIsNoInvoice(c, p);
    forall next: nat ensures InvoiceIs(c, at, next) <==> StrAt(c, at, "lnbc") && next == Until(c, at + 4, AtWhite) && next > at + 4 {
      InvoiceEnds(c, at, next);
    }
    LightningInside(c, p, p + 10);
    hide InvoiceIs;
    InvoiceSays(c, p);
    forall f, next: nat | InvoiceAt(c, p, f, next) ensures InvoiceIs(c, at, next) && f == Bolt11(at, next - at) {
    }
    if ScanInvoice(c, p).find.Some? {
      assert InvoiceIs(c, at, ScanInvoice(c, p).next);
    }
  }

  lemma InvoiceSays(c: Bytes, at: nat)
    ensures (exists next: nat :: InvoiceIs(c, at, next)) ==> ReadsAnyCase(c, at, "lnbc")
  {
  }

  lemma LightningInside(c: Bytes, p: nat, at: nat)
    requires at == p + 10
    ensures ReadsAnyCase(c, p, "lightning:") && !StrAt(c, p, "lightning:") ==> forall next: nat :: !InvoiceIs(c, at, next)
  {
    hide SameLetter;
    StrAtIff(c, p, "lightning:");
  }

  lemma SecondLetter(c: Bytes, p: nat, s: string)
    requires |s| >= 2
    ensures ReadsAnyCase(c, p, s) ==> p + 1 < |c| && SameLetter(c[p + 1], s[1])
  {
  }

  lemma LightningIsNoInvoice(c: Bytes, p: nat)
    ensures ReadsAnyCase(c, p, "lightning:") ==> !ReadsAnyCase(c, p, "lnbc")
  {
    hide ReadsAnyCase;
    SecondLetter(c, p, "lightning:");
    SecondLetter(c, p, "lnbc");
  }

  lemma InvoiceEnds(c: Bytes, at: nat, next: nat)
    ensures InvoiceIs(c, at, next) <==> StrAt(c, at, "lnbc") && next == Until(c, at + 4, AtWhite) && next > at + 4
  {
    hide Until, StrAt, Blank;
    StrAtIff(c, at, "lnbc");
    TextFits(c, at, "lnbc");
    LettersAreNoBlanks(c, at);
    hide ReadsAnyCase;
    if at + 4 <= |c| {
      UntilIff(c, at + 4, next, AtWhite);
      assert forall k :: at + 4 <= k < |c| ==> (StopsAt(c, k, AtWhite) <==> Blank(c[k]));
    }
  }

  lemma LettersAreNoBlanks(c: Bytes, at: nat)
    ensures ReadsAnyCase(c, at, "lnbc") ==> forall k :: at <= k < at + 4 ==> !Blank(c[k])
  {
    if ReadsAnyCase(c, at, "lnbc") {
      forall k | at <= k < at + 4 ensures !Blank(c[k]) {
        assert SameLetter(c[at + (k - at)], "lnbc"[k - at]);
      }
    }
  }

  lemma NoteStartsWithN(c: Bytes, at: nat, end: nat, kind: nat)
    ensures NoteIs(c, at, end, kind) ==> at <= |c| && Is(c, at, 'n') && !StrAt(c, at, "nostr:")
  {
    hide NoteIs, NostrStr, StrAt;
    if at <= |c| {
      NoteIff(c, at, end, kind);
      if NostrStr(c, at).Some? { NoteIsAlnum(c, at); }
    } else {
      NoNoteBeyond(c, at);
      assert NoteIs(c, at, end, kind) ==> HasNote(c, at);
    }
  }

  lemma AtSign(c: Bytes, p: nat)
    ensures ReadsAnyCase(c, p, "@") <==> Is(c, p, '@')
    ensures ReadsAnyCase(c, p, "@nostr:") <==> Is(c, p, '@') && ReadsAnyCase(c, p + 1, "nostr:")
    ensures ReadsAnyCase(c, p, "nostr:") ==> !Is(c, p, '@')
  {
    if p < |c| { assert SameLetter(c[p + 0], "@"[0]) <==> c[p] == '@' as nat; }
    FirstLetter(c, p, "nostr:");
    FirstLetter(c, p, "@");
    hide SameLetter;
    TextParts(c, p, "@", "nostr:");
    assert "@" + "nostr:" == "@nostr:";
  }

  lemma FirstLetter(c: Bytes, p: nat, s: string)
    requires |s| >= 1
    ensures ReadsAnyCase(c, p, s) ==> p < |c| && SameLetter(c[p], s[0])
  {
  }

  /** A mention is found exactly where a bech32 string stands, bare or behind "@", "nostr:"
      or both. */
  lemma MentionIff(c: Bytes, p: nat)
    requires p < |c|
    ensures forall f, next :: ScanMention(c, p) == Scan(Some(f), next) <==> MentionAt(c, p, f, next)
    ensures ScanMention(c, p).find.None? ==> ScanMention(c, p).next == p
  {
    hide ReadsAnyCase, StrAt, NostrStr, NoteIs, Within;
    AtSign(c, p);
    var q := if Is(c, p, '@') then p + 1 else p;
    StrAtIff(c, q, "nostr:");
    TextFits(c, q, "nostr:");
    var at := if StrAt(c, q, "nostr:") then q + 6 else q;
    forall end: nat, kind: nat ensures NoteIs(c, at, end, kind) <==> NostrStr(c, at) == Some((kind, end)) {
      NoteIff(c, at, end, kind);
    }
    forall f, next: nat | MentionAt(c, p, f, next) ensures ScanMention(c, p) == Scan(Some(f), next) {
      var at': nat, kind: nat :| MentionOf(c, p, f, next, at', kind);
      NoteStartsWithN(c, at', next, kind);
      StrAtIff(c, p, "nostr:");
      TextFits(c, p, "nostr:");
      assert at' == at;
    }
    if ScanMention(c, p).find.Some? {
      var f, next := ScanMention(c, p).find.value, ScanMention(c, p).next;
      assert MentionOf(c, p, f, next, at, f.kind);
    }
  }

  // ---- turns ----

  /** The loop looks for something at `p`: at the beginning, behind a byte that is no letter,
      digit or underscore, or at a "#". */
  predicate MayStart(c: Bytes, p: nat)
    requires p < |c|
  {
    p == 0 || c[p] == '#' as nat || c[p - 1] >= 0x80 || Blank(c[p - 1]) || Punctuation(c[p - 1])
  }

  /** What there is to find at `p`. An index mention is no hashtag. */
  ghost predicate FoundAt(c: Bytes, p: nat, f: Find, next: nat)
  {
    || IndexAt(c, p, f, next)
    || (HashtagAt(c, p, f, next) && forall g, n :: !IndexAt(c, p, g, n))
    || UrlAt(c, p, f, next)
    || InvoiceAt(c, p, f, next)
    || MentionAt(c, p, f, next)
  }

  /** Each of them begins with letters of its own. */
  lemma FirstBytes(c: Bytes, p: nat, f: Find, next: nat)
    requires p < |c|
    ensures IndexAt(c, p, f, next) || HashtagAt(c, p, f, next) ==> Is(c, p, '#')
    ensures UrlAt(c, p, f, next) ==> Is(c, p, 'h') || Is(c, p, 'H')
    ensures InvoiceAt(c, p, f, next) ==> Is(c, p, 'l') || Is(c, p, 'L')
    ensures MentionAt(c, p, f, next) ==> Is(c, p, 'n') || Is(c, p, 'N') || Is(c, p, '@')
  {
    hide WordIs, HostIs, PathIs, FragmentIs, FoundInUrl, ReadsAnyCase;
    FirstLetter(c, p, "http://");
    FirstLetter(c, p, "https://");
    FirstLetter(c, p, "lightning:");
    FirstLetter(c, p, "lnbc");
    FirstLetter(c, p, "@");
    FirstLetter(c, p, "@nostr:");
    FirstLetter(c, p, "nostr:");
    hide NoteIs;
    forall at: nat, kind: nat | NoteIs(c, at, next, kind) ensures Is(c, at, 'n') {
      NoteStartsWithN(c, at, next, kind);
    }
  }

  lemma MayStartIff(c: Bytes, p: nat)
    requires p < |c|
    ensures MayStart(c, p) <==> var before := CharAt(c, p - 1); before == -1 || LeftBoundary(before) || Is(c, p, '#')
  {
    hide RightBoundary, Blank, Punctuation;
    if p > 0 { BoundaryEndsWord(c[p - 1]); }
  }

  /** The scanner that a turn tries last. */
  function Tried(c: Bytes, p: nat): Scan
    requires p < |c|
  {
    if !MayStart(c, p) then Scan(None, p)
    else if c[p] == '#' as nat then (if ScanIndex(c, p).find.Some? then ScanIndex(c, p) else ScanHashtag(c, p))
    else if c[p] == 'h' as nat || c[p] == 'H' as nat then ScanUrl(c, p)
    else if c[p] == 'l' as nat || c[p] == 'L' as nat then ScanInvoice(c, p)
    else if c[p] == 'n' as nat || c[p] == '@' as nat then ScanMention(c, p)
    else Scan(None, p)
  }

  lemma TurnTries(c: Bytes, p: nat)
    requires p < |c|
    ensures Turn(c, p) == if Tried(c, p).find.Some? then Tried(c, p) else Scan(None, Tried(c, p).next + 1)
  {
    hide ScanIndex, ScanHashtag, ScanUrl, ScanInvoice, ScanMention, MayStart, LeftBoundary, Sound;
    MayStartIff(c, p);
  }

  lemma TriedFinds(c: Bytes, p: nat, f: Find, next: nat)
    requires p < |c|
    ensures Tried(c, p) == Scan(Some(f), next) <==> MayStart(c, p) && c[p] != 'N' as nat && FoundAt(c, p, f, next)
  {
    hide ScanIndex, ScanHashtag, ScanUrl, ScanInvoice, ScanMention, IndexAt, HashtagAt, UrlAt, InvoiceAt, MentionAt, MayStart, Sound;
    FirstBytes(c, p, f, next);
    IndexIff(c, p);
    HashtagIff(c, p);
    UrlIff(c, p);
    InvoiceIff(c, p);
    MentionIff(c, p);
  }

  lemma TriedMoves(c: Bytes, p: nat)
    requires p < |c| && Tried(c, p).find.None?
    ensures Tried(c, p).next == if MayStart(c, p) && ReadsAnyCase(c, p, "lightning:") && p + 10 < |c| then p + 10 else p
  {
    hide ScanIndex, ScanHashtag, ScanUrl, ScanInvoice, ScanMention, MayStart, ReadsAnyCase, Sound;
    HashtagIff(c, p);
    UrlIff(c, p);
    InvoiceIff(c, p);
    MentionIff(c, p);
    FirstLetter(c, p, "lightning:");
  }

  /** A turn finds what there is to find, but for a "NOSTR:" that begins with its capital;
      finding nothing it moves on by one byte, or past a "lightning:" by one more. */
  lemma TurnIff(c: Bytes, p: nat)
    requires p < |c|
    ensures forall f, next: nat :: Turn(c, p) == Scan(Some(f), next) <==> MayStart(c, p) && c[p] != 'N' as nat && FoundAt(c, p, f, next)
    ensures Turn(c, p).find.None? ==>
      Turn(c, p).next == if MayStart(c, p) && ReadsAnyCase(c, p, "lightning:") && p + 10 < |c| then p + 11 else p + 1
  {
    hide Turn, Tried, MayStart, FoundAt, ReadsAnyCase;
    TurnTries(c, p);
    forall f, next: nat
      ensures Tried(c, p) == Scan(Some(f), next) <==> MayStart(c, p) && c[p] != 'N' as nat && FoundAt(c, p, f, next)
    {
      TriedFinds(c, p, f, next);
    }
    if Tried(c, p).find.None? { TriedMoves(c, p); }
  }

  // ---- texts are the rest ----

  /** Byte `k` lies in what some turn from `p` on finds and moves over. */
  predicate Consumed(c: Bytes, p: nat, k: nat)
    decreases |c| - p
  {
    p < |c| && ((Turn(c, p).find.Some? && p <= k < Turn(c, p).next) || Consumed(c, Turn(c, p).next, k))
  }

  ghost predicate InText(fs: seq<Find>, k: nat)
  {
    exists i :: 0 <= i < |fs| && fs[i].Plain? && fs[i].block.Text? && Begin(fs[i]) <= k < End(fs[i])
  }

  lemma InTextSplits(a: seq<Find>, b: seq<Find>, k: nat)
    ensures InText(a + b, k) <==> InText(a, k) || InText(b, k)
  {
    if i :| 0 <= i < |a| && a[i].Plain? && a[i].block.Text? && Begin(a[i]) <= k < End(a[i]) {
      assert (a + b)[i] == a[i];
    }
    if i :| 0 <= i < |b| && b[i].Plain? && b[i].block.Text? && Begin(b[i]) <= k < End(b[i]) {
      assert (a + b)[|a| + i] == b[i];
    }
  }

  lemma InTextOf(start: nat, end: nat, k: nat)
    requires start <= end
    ensures InText(TextOf(start, end), k) <==> start <= k < end
  {
    if start < end {
      var t := TextOf(start, end);
      assert t[0] == Plain(Text(start, end - start));
    }
  }

  lemma {:induction false} NothingConsumedBefore(c: Bytes, p: nat, k: nat)
    requires p <= |c|
    ensures Consumed(c, p, k) ==> p <= k < |c|
    decreases |c| - p
  {
    hide Turn, Within;
    if p < |c| {
      TurnMoves(c, p);
      NothingConsumedBefore(c, Turn(c, p).next, k);
    }
  }

  lemma NoTextInFind(c: Bytes, p: nat, k: nat)
    requires p < |c| && Turn(c, p).find.Some?
    ensures !InText([Turn(c, p).find.value], k)
  {
    hide StrAt, NostrStr, BoundaryFrom, Within, LeftBoundary, SchemeEnd, Until, PathEnd, FragmentEnd, SmartEnd;
    var f := Turn(c, p).find.value;
    assert !(f.Plain? && f.block.Text?);
  }

  /** The texts pushed with a content hold exactly the bytes that no find has moved over. */
  lemma {:induction false} TextIsTheRest(c: Bytes, start: nat, p: nat, k: nat)
    requires start <= p <= |c|
    ensures InText(FindsFrom(c, start, p), k) <==> start <= k < |c| && !Consumed(c, p, k)
    decreases |c| - p
  {
    hide Turn, Within, InText;
    InTextOf(start, p, k);
    NothingConsumedBefore(c, p, k);
    if p < |c| {
      TurnMoves(c, p);
      var s := Turn(c, p);
      NothingConsumedBefore(c, s.next, k);
      if s.find.None? {
        TextIsTheRest(c, start, s.next, k);
      } else {
        var rest := FindsFrom(c, s.next, s.next);
        TextIsTheRest(c, s.next, s.next, k);
        NoTextInFind(c, p, k);
        InTextSplits([s.find.value], rest, k);
        InTextSplits(TextOf(start, p), [s.find.value] + rest, k);
      }
    }
  }
}
