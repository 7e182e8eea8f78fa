/** What jsmn makes of a printed JSON tree. */
module JsonTrees {
  import opened Basics
  import opened Jsmn

  // ---- JSON texts, after RFC 8259 ----

  // Between the tokens stands white space: behind an opening bracket, around each value of
  // a list, around each key.
  datatype Json = Obj(blank: seq<nat>, pairs: seq<Pair>) | Arr(blank: seq<nat>, items: seq<Item>) | Str(chars: seq<nat>) | Prim(text: seq<nat>)

  datatype Item = Item(before: seq<nat>, value: Json, after: seq<nat>)

  datatype Pair = Pair(before: seq<nat>, key: seq<nat>, gap: seq<nat>, item: Item)

  /** White space (section 2): space, tab, line feed, carriage return. */
  predicate IsBlank(s: seq<nat>)
  {
    forall i :: 0 <= i < |s| ==> s[i] == 0x20 || s[i] == 0x09 || s[i] == 0x0A || s[i] == 0x0D
  }

  /** What stands in a string as itself (section 7). */
  predicate IsUnescaped(c: nat)
  {
    c == 0x20 || c == 0x21 || 0x23 <= c <= 0x5B || 0x5D <= c
  }

  /** What may follow a backslash, but for "u" and four digits. */
  predicate IsEscapeLetter(c: nat)
  {
    c == 0x22 || c == 0x5C || c == 0x2F || c == 0x62 || c == 0x66 || c == 0x6E || c == 0x72 || c == 0x74
  }

  predicate IsHexDigit(c: nat)
  {
    0x30 <= c <= 0x39 || 0x41 <= c <= 0x46 || 0x61 <= c <= 0x66
  }

  /** The length of the first character or escape, or 0 if there is none. With `control`,
      control characters stand for themselves too, but for NUL. */
  function FirstLength(s: seq<nat>, control: bool): (n: nat)
    ensures n <= |s|
  {
    if s == [] then 0
    else if IsUnescaped(s[0]) || (control && 0 < s[0] < 0x20) then 1
    else if s[0] == 0x5C && |s| >= 2 && IsEscapeLetter(s[1]) then 2
    else if s[0] == 0x5C && |s| >= 6 && s[1] == 0x75
            && IsHexDigit(s[2]) && IsHexDigit(s[3]) && IsHexDigit(s[4]) && IsHexDigit(s[5]) then 6
    else 0
  }

  /** The characters between the quotes of a string. */
  predicate IsChars(s: seq<nat>, control: bool)
    decreases |s|
  {
    s == [] || (FirstLength(s, control) > 0 && IsChars(s[FirstLength(s, control)..], control))
  }

  predicate IsDigits(s: seq<nat>)
  {
    |s| > 0 && forall i :: 0 <= i < |s| ==> 0x30 <= s[i] <= 0x39
  }

  predicate IsExponent(s: seq<nat>)
  {
    && |s| >= 2 && (s[0] == 0x65 || s[0] == 0x45)
    && (IsDigits(s[1..]) || ((s[1] == 0x2B || s[1] == 0x2D) && IsDigits(s[2..])))
  }

  /** The parts of a number (section 6). */
  predicate NumberParts(s: seq<nat>, minus: seq<nat>, whole: seq<nat>, fraction: seq<nat>, exponent: seq<nat>)
  {
    && s == minus + whole + fraction + exponent
    && (minus == [] || minus == [0x2D])
    && (whole == [0x30] || (IsDigits(whole) && whole[0] != 0x30))
    && (fraction == [] || (fraction[0] == 0x2E && IsDigits(fraction[1..])))
    && (exponent == [] || IsExponent(exponent))
  }

  ghost predicate IsNumber(s: seq<nat>)
  {
    exists minus, whole, fraction, exponent :: NumberParts(s, minus, whole, fraction, exponent)
  }

  const TRUE := [0x74, 0x72, 0x75, 0x65]
  const FALSE := [0x66, 0x61, 0x6C, 0x73, 0x65]
  const NULL := [0x6E, 0x75, 0x6C, 0x6C]

  ghost predicate Valid(j: Json)
    decreases j
  {
    match j
    case Str(s) => IsChars(s, false)
    case Prim(s) => s == TRUE || s == FALSE || s == NULL || IsNumber(s)
    case Arr(blank, items) => IsBlank(blank) && ValidItems(items)
    case Obj(blank, pairs) => IsBlank(blank) && ValidPairs(pairs)
  }

  ghost predicate ValidItem(i: Item)
    decreases i
  {
    IsBlank(i.before) && Valid(i.value) && IsBlank(i.after)
  }

  ghost predicate ValidItems(items: seq<Item>)
    decreases items
  {
    items == [] || (ValidItem(items[0]) && ValidItems(items[1..]))
  }

  ghost predicate ValidPairs(pairs: seq<Pair>)
    decreases pairs
  {
    pairs == [] || (IsBlank(pairs[0].before) && IsChars(pairs[0].key, false) && IsBlank(pairs[0].gap)
                    && ValidItem(pairs[0].item) && ValidPairs(pairs[1..]))
  }

  function Print(j: Json): (s: seq<nat>)
    decreases j
  {
    match j
    case Str(s) => [QUOTE] + s + [QUOTE]
    case Prim(s) => s
    case Arr(blank, items) => [91] + (blank + PrintItems(items)) + [93]
    case Obj(blank, pairs) => [123] + (blank + PrintPairs(pairs)) + [125]
  }

  function PrintItem(i: Item): seq<nat>
    decreases i
  {
    i.before + (Print(i.value) + i.after)
  }

  function PrintItems(items: seq<Item>): seq<nat>
    decreases items
  {
    if items == [] then []
    else if |items| == 1 then PrintItem(items[0])
    else PrintItem(items[0]) + [44] + PrintItems(items[1..])
  }

  function PrintPair(p: Pair): seq<nat>
    decreases p
  {
    p.before + ([QUOTE] + p.key + [QUOTE] + (p.gap + ([58] + PrintItem(p.item))))
  }

  function PrintPairs(pairs: seq<Pair>): seq<nat>
    decreases pairs
  {
    if pairs == [] then []
    else if |pairs| == 1 then PrintPair(pairs[0])
    else PrintPair(pairs[0]) + [44] + PrintPairs(pairs[1..])
  }

  // ---- the expected tokens, in pre-order ----

  /** Tokens of `j` printed at `pos`, its first token being number `idx`, under
      `parent`: an object's size is its pair count, a key's is 1, an array's its
      element count. */
  function Expect(j: Json, pos: nat, idx: nat, parent: int): seq<Token>
    decreases j
  {
    match j
    case Str(s) => [Token(String, pos + 1, pos + 1 + |s|, 0, parent)]
    case Prim(s) => [Token(Primitive, pos, pos + |s|, 0, parent)]
    case Arr(blank, items) =>
      [Token(Array, pos, pos + |Print(j)|, |items|, parent)] + ExpectItems(items, pos + 1 + |blank|, idx + 1, idx)
    case Obj(blank, pairs) =>
      [Token(Object, pos, pos + |Print(j)|, |pairs|, parent)] + ExpectPairs(pairs, pos + 1 + |blank|, idx + 1, idx)
  }

  function ExpectItems(items: seq<Item>, pos: nat, idx: nat, parent: int): seq<Token>
    decreases items
  {
    if items == [] then []
    else
      var e := Expect(items[0].value, pos + |items[0].before|, idx, parent);
      e + ExpectItems(items[1..], pos + |PrintItem(items[0])| + 1, idx + |e|, parent)
  }

  /** Where the value of a pair printed at `pos` starts. */
  function ValuePos(p: Pair, pos: nat): nat
  {
    pos + |p.before| + |p.key| + 2 + |p.gap| + 1 + |p.item.before|
  }

  function ExpectPair(p: Pair, pos: nat, idx: nat, parent: int): seq<Token>
    decreases p
  {
    [Token(String, pos + |p.before| + 1, pos + |p.before| + 1 + |p.key|, 1, parent)]
    + Expect(p.item.value, ValuePos(p, pos), idx + 1, idx)
  }

  function ExpectPairs(pairs: seq<Pair>, pos: nat, idx: nat, parent: int): seq<Token>
    decreases pairs
  {
    if pairs == [] then []
    else
      var e := ExpectPair(pairs[0], pos, idx, parent);
      e + ExpectPairs(pairs[1..], pos + |PrintPair(pairs[0])| + 1, idx + |e|, parent)
  }

  // ---- placing tokens ----

  /** `e` written at `idx`, and token `sup` grown by `n`. */
  function Placed(tokens: seq<Token>, idx: nat, sup: int, n: nat, e: seq<Token>): (r: seq<Token>)
    requires sup < idx && idx + |e| <= |tokens|
    ensures |r| == |tokens|
  {
    var grown := if sup < 0 then tokens else tokens[sup := tokens[sup].(size := tokens[sup].size + n)];
    grown[..idx] + e + tokens[idx + |e|..]
  }

  lemma PlacedNext(t: seq<Token>, idx: nat, sup: int, m: nat, e: seq<Token>, n: nat, f: seq<Token>)
    requires sup < idx && idx + |e| + |f| <= |t|
    ensures Placed(Placed(t, idx, sup, m, e), idx + |e|, sup, n, f) == Placed(t, idx, sup, m + n, e + f)
  {
  }

  lemma PlacedUnder(t: seq<Token>, idx: nat, sup: int, k: Token, n: nat, f: seq<Token>)
    requires sup < idx && idx + 1 + |f| <= |t|
    ensures Placed(Placed(t, idx, sup, 1, [k]), idx + 1, idx, n, f)
         == Placed(t, idx, sup, 1, [k.(size := k.size + n)] + f)
  {
  }

  lemma PlacedNothing(t: seq<Token>, idx: nat, sup: int)
    requires sup < idx <= |t|
    ensures Placed(t, idx, sup, 0, []) == t
  {
  }

  lemma PlacedAt(t: seq<Token>, idx: nat, sup: int, n: nat, e: seq<Token>)
    requires sup < idx && idx + |e| <= |t|
    ensures sup >= 0 ==> Placed(t, idx, sup, n, e)[sup] == t[sup].(size := t[sup].size + n)
    ensures |e| > 0 ==> Placed(t, idx, sup, n, e)[idx] == e[0]
  {
  }

  // ---- which strings end ----

  /** One character or escape is what the scan goes over. */
  lemma ScanStep(js: seq<nat>, p: nat)
    requires p < |js|
    ensures var n := FirstLength(js[p..], true);
      n > 0 ==> ScanString(js, p) == ScanString(js, p + n)
  {
    var s, n := js[p..], FirstLength(js[p..], true);
    assert s[0] == js[p] && forall i :: 0 <= i < |s| ==> s[i] == js[p + i];
    if n == 6 {
      assert ScanHex(js, p + 2, 4) == ScanHex(js, p + 4, 2) == Ends(p + 6);
    }
  }

  /** What is none fails: at a quote the string ends, and else nothing good is scanned. */
  lemma ScanStuck(js: seq<nat>, p: nat)
    requires p < |js| && FirstLength(js[p..], true) == 0
    ensures js[p] == QUOTE <==> ScanString(js, p).Ends?
    ensures js[p] == QUOTE ==> ScanString(js, p) == Ends(p)
  {
    hide ScanHex;
    var s := js[p..];
    assert s[0] == js[p];
    if js[p] == BACKSLASH && p + 1 < |js| && js[p + 1] == 117 {
      assert s[1] == js[p + 1];
      hide ScanString;
      NoDigits(js, p);
      HexStuck(js, p + 2, 4);
      DigitsDecide(js, p);
    } else if js[p] == BACKSLASH && p + 1 < |js| {
      assert s[1] == js[p + 1];
    }
  }

  lemma NoDigits(js: seq<nat>, p: nat)
    requires p + 1 < |js| && js[p] == BACKSLASH && js[p + 1] == 117 && FirstLength(js[p..], true) == 0
    ensures p + 6 <= |js| ==> exists i :: p + 2 <= i < p + 6 && !IsHexDigit(js[i])
  {
    var s := js[p..];
    assert s[0] == js[p] && s[1] == js[p + 1];
    if p + 6 <= |js| {
      assert s[2] == js[p + 2] && s[3] == js[p + 3] && s[4] == js[p + 4] && s[5] == js[p + 5];
    }
  }

  lemma DigitsDecide(js: seq<nat>, p: nat)
    requires p + 2 <= |js| && js[p] == BACKSLASH && js[p + 1] == 117
    requires ScanHex(js, p + 2, 4).Ends? ==> var q := ScanHex(js, p + 2, 4).at; q == |js| || js[q] == 0
    ensures ScanString(js, p).Fails?
  {
    hide ScanHex;
  }

  /** Four digits, or an end of the text before, where no string ends. */
  lemma {:induction false} HexStuck(js: seq<nat>, p: nat, n: nat)
    requires p <= |js|
    ensures match ScanHex(js, p, n)
      case Fails(_) => exists i :: p <= i < p + n && i < |js| && !IsHexDigit(js[i])
      case Ends(q) => (q == p + n && forall i :: p <= i < p + n ==> IsHexDigit(js[i])) || q == |js| || js[q] == 0
    decreases n
  {
    if n > 0 && p < |js| && js[p] != 0 {
      if IsHex(js[p]) {
        HexStuck(js, p + 1, n - 1);
      } else {
        assert !IsHexDigit(js[p]);
      }
    }
  }

  lemma FirstLengthOf(s: seq<nat>, t: seq<nat>, control: bool)
    ensures FirstLength(s, control) > 0 ==> FirstLength(s + t, control) == FirstLength(s, control)
  {
  }

  /** A string ends at the first quote that is not escaped, if what stands before it is made
      of characters and escapes; control characters pass for the former. */
  lemma {:induction false} StringEndsIff(js: seq<nat>, p: nat, q: nat)
    requires p <= q < |js|
    ensures ScanString(js, p) == Ends(q) <==> js[q] == QUOTE && IsChars(js[p..q], true)
    decreases q - p
  {
    hide ScanString;
    var n, s := FirstLength(js[p..], true), js[p..q];
    assert js[p..] == s + js[q..];
    if n == 0 {
      ScanStuck(js, p);
      FirstLengthOf(s, js[q..], true);
    } else {
      ScanStep(js, p);
      if p + n <= q {
        StringEndsIff(js, p + n, q);
        CharsUnfold(s, js[q..]);
        assert s[n..] == js[p + n..q];
      } else {
        CutEscape(js, p, q);
      }
    }
  }

  lemma CharsUnfold(s: seq<nat>, t: seq<nat>)
    requires 0 < FirstLength(s + t, true) <= |s|
    ensures IsChars(s, true) <==> IsChars(s[FirstLength(s + t, true)..], true)
  {
    var n := FirstLength(s + t, true);
    assert forall i :: 0 <= i < n ==> (s + t)[i] == s[i];
    assert FirstLength(s, true) == n;
  }

  /** A quote inside the escape at `p` ends no string. */
  lemma CutEscape(js: seq<nat>, p: nat, q: nat)
    requires p <= q < |js| && q < p + FirstLength(js[p..], true)
    ensures ScanString(js, p) != Ends(q)
    ensures js[q] == QUOTE ==> !IsChars(js[p..q], true)
  {
    hide ScanString;
    ScanStep(js, p);
    FirstLengthOf(js[p..q], js[q..], true);
    assert js[p..] == js[p..q] + js[q..];
  }

  /** So an escape that RFC 8259 does not have refuses the text. */
  lemma NoEscapeIsRefused(js: seq<nat>, st: State, chars: seq<nat>, c: nat)
    requires Linked(st) && IsChars(chars, false) && At(js, st.pos, [QUOTE] + chars + [0x5C, c])
    requires !IsEscapeLetter(c) && c != 0x75
    ensures Parse(js, st, false, false) == (INVAL, st)
  {
    hide ScanString, Parse, At;
    StringUpTo(js, st.pos, chars, [0x5C, c]);
    var at := st.pos + 1 + |chars|;
    AtIndex(js, at, [0x5C, c], 0);
    AtIndex(js, at, [0x5C, c], 1);
    AtBound(js, at, [0x5C, c]);
    BadLetter(js, at);
    StringRefused(js, st);
  }

  /** And so does a digit missing behind "u". */
  lemma ShortEscapeIsRefused(js: seq<nat>, st: State, chars: seq<nat>, digits: seq<nat>, c: nat)
    requires Linked(st) && IsChars(chars, false) && At(js, st.pos, [QUOTE] + chars + ([0x5C, 0x75] + digits + [c]))
    requires |digits| < 4 && (forall i :: 0 <= i < |digits| ==> IsHexDigit(digits[i])) && !IsHexDigit(c) && c != 0
    ensures Parse(js, st, false, false) == (INVAL, st)
  {
    hide ScanString, Parse, At, ScanHex, IsChars, FirstLength, IsHexDigit, Linked;
    var tail := [0x5C, 0x75] + digits + [c];
    StringUpTo(js, st.pos, chars, tail);
    var at := st.pos + 1 + |chars|;
    AtIndex(js, at, tail, 0);
    AtIndex(js, at, tail, 1);
    AtBound(js, at, tail);
    AtTail(js, at, tail, 2);
    assert tail[2..] == digits + [c];
    AtIndex(js, at + 2, digits + [c], |digits|);
    DigitMissing(js, at + 2, digits, c, 4);
    BadDigits(js, at);
    StringRefused(js, st);
  }

  lemma StringUpTo(js: seq<nat>, p: nat, chars: seq<nat>, tail: seq<nat>)
    requires IsChars(chars, false) && At(js, p, [QUOTE] + chars + tail) && tail != []
    ensures p < |js| && js[p] == QUOTE && At(js, p + 1 + |chars|, tail) && p + 1 + |chars| < |js|
    ensures ScanString(js, p + 1) == ScanString(js, p + 1 + |chars|)
  {
    hide ScanString, At, IsChars, FirstLength;
    AtIndex(js, p, [QUOTE] + chars + tail, 0);
    AtBound(js, p, [QUOTE] + chars + tail);
    AtParts(js, p, [QUOTE] + chars, tail);
    AtParts(js, p, [QUOTE], chars);
    StrictIsLoose(chars);
    ScansChars(js, p + 1, chars);
  }

  lemma BadLetter(js: seq<nat>, p: nat)
    requires p + 1 < |js| && js[p] == 0x5C && !IsEscapeLetter(js[p + 1]) && js[p + 1] != 0x75
    ensures ScanString(js, p) == Fails(INVAL)
  {
  }

  lemma BadDigits(js: seq<nat>, p: nat)
    requires p + 2 <= |js| && js[p] == 0x5C && js[p + 1] == 0x75 && ScanHex(js, p + 2, 4) == Fails(INVAL)
    ensures ScanString(js, p) == Fails(INVAL)
  {
    hide ScanHex;
  }

  lemma StringRefused(js: seq<nat>, st: State)
    requires Linked(st) && st.pos < |js| && js[st.pos] == QUOTE && ScanString(js, st.pos + 1) == Fails(INVAL)
    ensures Parse(js, st, false, false) == (INVAL, st)
  {
    hide ScanString, Leaf, Step;
    StepAtQuote(js, st);
  }

  lemma {:induction false} DigitMissing(js: seq<nat>, p: nat, digits: seq<nat>, c: nat, n: nat)
    requires At(js, p, digits + [c]) && |digits| < n && !IsHexDigit(c) && c != 0
    requires forall i :: 0 <= i < |digits| ==> IsHexDigit(digits[i])
    ensures ScanHex(js, p, n) == Fails(INVAL)
    decreases n
  {
    AtIndex(js, p, digits + [c], 0);
    if digits != [] {
      AtTail(js, p, digits + [c], 1);
      assert (digits + [c])[1..] == digits[1..] + [c];
      DigitMissing(js, p + 1, digits[1..], c, n - 1);
    }
  }

  // ---- scanning printed text ----

  lemma {:induction false} StrictIsLoose(s: seq<nat>)
    requires IsChars(s, false)
    ensures IsChars(s, true)
    decreases |s|
  {
    if s != [] {
      StrictIsLoose(s[FirstLength(s, false)..]);
    }
  }

  /** Characters are scanned over. */
  lemma {:induction false} ScansChars(js: seq<nat>, p: nat, s: seq<nat>)
    requires IsChars(s, true) && At(js, p, s) && p + |s| < |js|
    ensures ScanString(js, p) == ScanString(js, p + |s|)
    decreases |s|
  {
    hide ScanString;
    if s != [] {
      var n := FirstLength(s, true);
      assert js[p..] == s + js[p + |s|..];
      FirstLengthOf(s, js[p + |s|..], true);
      ScanStep(js, p);
      AtTail(js, p, s, n);
      ScansChars(js, p + n, s[n..]);
    }
  }

  // ---- primitives ----

  /** What a primitive may go on with, for the scan of it. */
  predicate PlainPrimitive(s: seq<nat>)
  {
    |s| > 0 && StartsPrimitive(s[0]) && forall i :: 0 <= i < |s| ==> 32 < s[i] < 127 && !EndsPrimitive(s[i])
  }

  predicate NumberChar(c: nat)
  {
    0x30 <= c <= 0x39 || c == 0x2B || c == 0x2D || c == 0x2E || c == 0x65 || c == 0x45
  }

  lemma ExponentChars(s: seq<nat>)
    requires IsExponent(s)
    ensures forall i :: 0 <= i < |s| ==> NumberChar(s[i])
  {
    forall i | 0 <= i < |s| ensures NumberChar(s[i]) {
      if i >= 1 && IsDigits(s[1..]) { assert s[i] == s[1..][i - 1]; }
      if i >= 2 && IsDigits(s[2..]) { assert s[i] == s[2..][i - 2]; }
    }
  }

  lemma FractionChars(s: seq<nat>)
    requires s != [] && s[0] == 0x2E && IsDigits(s[1..])
    ensures forall i :: 0 <= i < |s| ==> NumberChar(s[i])
  {
    forall i | 0 <= i < |s| ensures NumberChar(s[i]) {
      if i >= 1 { assert s[i] == s[1..][i - 1]; }
    }
  }

  lemma NumberIsPlain(s: seq<nat>)
    requires IsNumber(s)
    ensures PlainPrimitive(s)
  {
    var minus, whole, fraction, exponent :| NumberParts(s, minus, whole, fraction, exponent);
    if fraction != [] { FractionChars(fraction); }
    if exponent != [] { ExponentChars(exponent); }
    assert s[0] == if minus == [] then whole[0] else 0x2D;
    assert forall i :: 0 <= i < |whole| ==> NumberChar(whole[i]);
    forall i | 0 <= i < |s| ensures NumberChar(s[i]) {
    }
  }

  lemma PrimitiveIsPlain(s: seq<nat>)
    requires Valid(Prim(s))
    ensures PlainPrimitive(s)
  {
    if IsNumber(s) { NumberIsPlain(s); }
  }

  lemma {:induction false} ScansPrimitive(js: seq<nat>, p: nat, s: seq<nat>)
    requires forall i :: 0 <= i < |s| ==> 32 < s[i] < 127 && !EndsPrimitive(s[i])
    requires At(js, p, s) && p + |s| < |js| && EndsPrimitive(js[p + |s|])
    ensures ScanPrimitive(js, p) == Ends(p + |s|)
    decreases |s|
  {
    if s != [] {
      AtIndex(js, p, s, 0);
      AtTail(js, p, s, 1);
      ScansPrimitive(js, p + 1, s[1..]);
    }
  }

  // ---- climbing out of a finished value ----

  /** Tokens lo..hi-1 are closed, and lead up to `p`. */
  ghost predicate ClosedUnder(t: seq<Token>, lo: int, hi: int, p: int)
    requires 0 <= lo && hi <= |t|
  {
    forall k :: lo <= k < hi ==> t[k].start != -1 && t[k].end != -1 && (t[k].parent == p || lo <= t[k].parent < k)
  }

  ghost predicate ExpectedClosed(e: seq<Token>, idx: nat, p: int)
  {
    forall k :: 0 <= k < |e| ==> e[k].start >= 0 && e[k].end >= 0 && (e[k].parent == p || idx <= e[k].parent < idx + k)
  }

  lemma {:induction false} ExpectIsClosed(j: Json, pos: nat, idx: nat, p: int)
    ensures |Expect(j, pos, idx, p)| > 0 && ExpectedClosed(Expect(j, pos, idx, p), idx, p)
    decreases j
  {
    match j
    case Str(s) =>
    case Prim(s) =>
    case Arr(blank, items) => ExpectItemsClosed(items, pos + 1 + |blank|, idx + 1, idx);
    case Obj(blank, pairs) => ExpectPairsClosed(pairs, pos + 1 + |blank|, idx + 1, idx);
  }

  lemma {:induction false} ExpectItemsClosed(items: seq<Item>, pos: nat, idx: nat, p: int)
    ensures ExpectedClosed(ExpectItems(items, pos, idx, p), idx, p)
    decreases items
  {
    if items != [] {
      var e := Expect(items[0].value, pos + |items[0].before|, idx, p);
      ExpectIsClosed(items[0].value, pos + |items[0].before|, idx, p);
      ExpectItemsClosed(items[1..], pos + |PrintItem(items[0])| + 1, idx + |e|, p);
    }
  }

  lemma ClosedJoins(e: seq<Token>, f: seq<Token>, idx: nat, p: int)
    requires ExpectedClosed(e, idx, p) && ExpectedClosed(f, idx + |e|, p)
    ensures ExpectedClosed(e + f, idx, p)
  {
  }

  lemma {:induction false} ExpectPairClosed(pair: Pair, pos: nat, idx: nat, p: int)
    ensures ExpectedClosed(ExpectPair(pair, pos, idx, p), idx, p)
    decreases pair
  {
    hide Expect, ValuePos;
    ExpectIsClosed(pair.item.value, ValuePos(pair, pos), idx + 1, idx);
  }

  lemma {:induction false} ExpectPairsClosed(pairs: seq<Pair>, pos: nat, idx: nat, p: int)
    ensures ExpectedClosed(ExpectPairs(pairs, pos, idx, p), idx, p)
    decreases pairs
  {
    if pairs != [] {
      hide Print, PrintPair, ValuePos, Expect, ExpectPair, ExpectedClosed;
      var e := ExpectPair(pairs[0], pos, idx, p);
      ExpectPairClosed(pairs[0], pos, idx, p);
      var rest := pos + |PrintPair(pairs[0])| + 1;
      ExpectPairsClosed(pairs[1..], rest, idx + |e|, p);
      ClosedJoins(e, ExpectPairs(pairs[1..], rest, idx + |e|, p), idx, p);
    }
  }

  lemma {:induction false} ClimbsTo(st: State, kind: TokenType, lo: nat, p: nat, k: nat)
    requires Linked(st) && p < lo <= k < st.toknext
    requires ClosedUnder(st.tokens, lo, st.toknext, p)
    ensures Climb(st, kind, k) == Climb(st, kind, p)
    decreases k
  {
    if st.tokens[k].parent != p {
      ClimbsTo(st, kind, lo, p, st.tokens[k].parent);
    }
  }
  // ---- parsing printed text ----

  ghost predicate Reaches(js: seq<nat>, s: State, t: State)
  {
    Linked(s) && Linked(t) && Parse(js, s, false, false) == Parse(js, t, false, false)
  }

  lemma OneStep(js: seq<nat>, s: State, t: State, isString: bool)
    requires Linked(s) && s.pos < |js| && js[s.pos] != 0 && Step(js, s) == Next(t, isString)
    ensures Reaches(js, s, t)
  {
  }

  lemma ReachesTrans(js: seq<nat>, r: State, s: State, t: State)
    requires Reaches(js, r, s) && Reaches(js, s, t)
    ensures Reaches(js, r, t)
  {
  }

  lemma ReachesSelf(js: seq<nat>, s: State)
    requires Linked(s)
    ensures Reaches(js, s, s)
  {
  }

  /** A comma between values: back from a key to its object, nothing in an array. */
  lemma CommaAt(js: seq<nat>, s: State)
    requires Linked(s) && s.pos < |js| && js[s.pos] == 44 && s.toksuper >= 0
    requires s.tokens[s.toksuper].kind == Array || s.tokens[s.toksuper].kind == String
    ensures var t := s.(pos := s.pos + 1,
                        toksuper := if s.tokens[s.toksuper].kind == Array then s.toksuper else s.tokens[s.toksuper].parent);
      Linked(t) && Reaches(js, s, t)
  {
    hide Parse, Climb, OpenContainer, CloseContainer, StringToken, PrimitiveToken;
    OneStep(js, s, Step(js, s).st, false);
  }

  /** A colon makes the token before it the superior one. */
  lemma ColonAt(js: seq<nat>, s: State)
    requires Linked(s) && s.pos < |js| && js[s.pos] == 58
    ensures var t := s.(pos := s.pos + 1, toksuper := s.toknext - 1);
      Linked(t) && Reaches(js, s, t)
  {
    hide Parse, Climb, OpenContainer, CloseContainer, StringToken, PrimitiveToken;
    OneStep(js, s, Step(js, s).st, false);
  }

  /** A value may stand here: at the top, in an array, or after a key. */
  predicate CanTake(st: State)
    requires Linked(st)
  {
    st.toksuper == -1 || st.tokens[st.toksuper].kind == Array
    || (st.tokens[st.toksuper].kind == String && st.tokens[st.toksuper].size == 0)
  }

  function Expected(st: State, j: Json): seq<Token>
  {
    Expect(j, st.pos, st.toknext, st.toksuper)
  }

  function After(st: State, j: Json): State
    requires Linked(st) && st.toknext + |Expected(st, j)| <= |st.tokens|
  {
    State(st.pos + |Print(j)|, st.toknext + |Expected(st, j)|, st.toksuper,
          Placed(st.tokens, st.toknext, st.toksuper, 1, Expected(st, j)))
  }

  lemma PlacedIsLinked(st: State, pos: nat, sup: int, n: nat, e: seq<Token>)
    requires Linked(st) && st.toknext + |e| <= |st.tokens|
    requires ExpectedClosed(e, st.toknext, st.toksuper) && -1 <= sup < st.toknext + |e|
    ensures Linked(State(pos, st.toknext + |e|, sup, Placed(st.tokens, st.toknext, st.toksuper, n, e)))
  {
  }

  lemma LeafPlaces(st: State, kind: TokenType, start: int, end: int, next: nat)
    requires Linked(st) && st.toknext < |st.tokens| && next > st.pos
    ensures Leaf(st, kind, start, end, next)
         == Next(State(next, st.toknext + 1, st.toksuper,
                       Placed(st.tokens, st.toknext, st.toksuper, 1, [Token(kind, start, end, 0, st.toksuper)])), kind == String)
  {
    var k := Token(kind, start, end, 0, st.toksuper);
    assert Grown(st.tokens[st.toknext := k], st.toksuper) == Placed(st.tokens, st.toknext, st.toksuper, 1, [k]);
  }

  lemma StepAtQuote(js: seq<nat>, st: State)
    requires Linked(st) && st.pos < |js| && js[st.pos] == QUOTE
    ensures Step(js, st) == StringToken(js, st)
  {
    hide StringToken, OpenContainer, CloseContainer, PrimitiveToken;
  }

  lemma StepAtClose(js: seq<nat>, st: State, kind: TokenType)
    requires Linked(st) && st.pos < |js|
    requires (kind == Array && js[st.pos] == 93) || (kind == Object && js[st.pos] == 125)
    ensures Step(js, st) == CloseContainer(st, kind)
  {
    hide StringToken, OpenContainer, CloseContainer, PrimitiveToken;
  }

  /** The quoted string at st.pos becomes one token. */
  lemma StringAt(js: seq<nat>, st: State, chars: seq<nat>)
    requires Linked(st) && st.toknext < |st.tokens| && IsChars(chars, false)
    requires At(js, st.pos, [QUOTE] + chars + [QUOTE])
    ensures Reaches(js, st, State(st.pos + |chars| + 2, st.toknext + 1, st.toksuper,
              Placed(st.tokens, st.toknext, st.toksuper, 1,
                     [Token(String, st.pos + 1, st.pos + 1 + |chars|, 0, st.toksuper)])))
  {
    hide Parse, Placed, Reaches, At, Step, Linked, IsChars, ScanString;
    StringScans(js, st.pos, chars);
    StringStep(js, st, |chars|);
    OneStep(js, st, Step(js, st).st, true);
  }

  lemma StringStep(js: seq<nat>, st: State, n: nat)
    requires Linked(st) && st.toknext < |st.tokens| && st.pos < |js| && js[st.pos] == QUOTE
    requires ScanString(js, st.pos + 1) == Ends(st.pos + 1 + n)
    ensures Step(js, st) == Next(State(st.pos + n + 2, st.toknext + 1, st.toksuper,
              Placed(st.tokens, st.toknext, st.toksuper, 1, [Token(String, st.pos + 1, st.pos + 1 + n, 0, st.toksuper)])), true)
  {
    hide ScanString, Leaf, Linked, Placed, Step;
    StepAtQuote(js, st);
    LeafPlaces(st, String, st.pos + 1, st.pos + 1 + n, st.pos + n + 2);
  }

  lemma StringScans(js: seq<nat>, pos: nat, chars: seq<nat>)
    requires IsChars(chars, false) && At(js, pos, [QUOTE] + chars + [QUOTE])
    ensures pos + |chars| + 1 < |js| && js[pos] == QUOTE
    ensures ScanString(js, pos + 1) == Ends(pos + 1 + |chars|)
  {
    hide At, IsChars;
    StringUpTo(js, pos, chars, [QUOTE]);
    AtIndex(js, pos + 1 + |chars|, [QUOTE], 0);
  }

  lemma PrimitiveAt(js: seq<nat>, st: State, text: seq<nat>)
    requires Linked(st) && st.toknext < |st.tokens| && Valid(Prim(text)) && CanTake(st)
    requires At(js, st.pos, text) && st.pos + |text| < |js| && EndsPrimitive(js[st.pos + |text|])
    ensures Reaches(js, st, After(st, Prim(text)))
  {
    hide Parse, ScanPrimitive, Leaf, Placed, Reaches, Climb, OpenContainer, CloseContainer;
    PrimitiveIsPlain(text);
    AtIndex(js, st.pos, text, 0);
    ScansPrimitive(js, st.pos, text);
    LeafPlaces(st, Primitive, st.pos, st.pos + |text|, st.pos + |text|);
    assert Step(js, st) == PrimitiveToken(js, st);
    OneStep(js, st, Step(js, st).st, false);
  }

  /** The state just after an opening bracket. */
  function Opened(st: State, kind: TokenType): State
    requires Linked(st) && st.toknext < |st.tokens|
  {
    State(st.pos + 1, st.toknext + 1, st.toknext,
          Placed(st.tokens, st.toknext, st.toksuper, 1, [Token(kind, st.pos, -1, 0, st.toksuper)]))
  }

  lemma OpenAt(js: seq<nat>, st: State, kind: TokenType)
    requires Linked(st) && st.toknext < |st.tokens| && CanTake(st) && st.pos < |js|
    requires (kind == Array && js[st.pos] == 91) || (kind == Object && js[st.pos] == 123)
    ensures Reaches(js, st, Opened(st, kind)) && Linked(Opened(st, kind))
    ensures Opened(st, kind).tokens[st.toknext] == Token(kind, st.pos, -1, 0, st.toksuper)
  {
    hide Parse, Climb, Reaches, ScanString, ScanPrimitive;
    var k := Token(kind, st.pos, -1, 0, st.toksuper);
    var ts := st.tokens[st.toknext := Blank(st.tokens[st.toknext])];
    assert Grown(ts, st.toksuper)[st.toknext := k] == Placed(st.tokens, st.toknext, st.toksuper, 1, [k]);
    OneStep(js, st, Opened(st, kind), false);
  }

  /** A closing bracket closes the container whose contents `e` just ended. */
  lemma CloseAt(js: seq<nat>, st: State, kind: TokenType, n: nat, e: seq<Token>, mid: State)
    requires Linked(st) && st.toknext + 1 + |e| <= |st.tokens|
    requires ExpectedClosed(e, st.toknext + 1, st.toknext)
    requires Linked(mid) && mid.toknext == st.toknext + 1 + |e|
    requires mid.tokens == Placed(st.tokens, st.toknext, st.toksuper, 1, [Token(kind, st.pos, -1, n, st.toksuper)] + e)
    requires mid.pos < |js| && ((kind == Array && js[mid.pos] == 93) || (kind == Object && js[mid.pos] == 125))
    ensures var t := State(mid.pos + 1, mid.toknext, st.toksuper,
                           Placed(st.tokens, st.toknext, st.toksuper, 1, [Token(kind, st.pos, mid.pos + 1, n, st.toksuper)] + e));
      Linked(t) ==> Reaches(js, mid, t)
  {
    var i := st.toknext;
    var shut := Token(kind, st.pos, mid.pos + 1, n, st.toksuper);
    ContainerPlaced(st.tokens, i, st.toksuper, e, Token(kind, st.pos, -1, n, st.toksuper), shut);
    hide Placed, Step, Parse, Reaches;
    assert ClosedUnder(mid.tokens, i + 1, mid.toknext, i);
    if mid.toknext - 1 > i { ClimbsTo(mid, kind, i + 1, i, mid.toknext - 1); }
    assert Climb(mid, kind, mid.toknext - 1) == Climb(mid, kind, i);
    var t := State(mid.pos + 1, mid.toknext, st.toksuper, mid.tokens[i := shut]);
    StepAtClose(js, mid, kind);
    if Linked(t) { OneStep(js, mid, t, false); }
  }

  /** What stands at `i` after placing `open` and `e` there. */
  lemma ContainerPlaced(tokens: seq<Token>, i: nat, sup: int, e: seq<Token>, open: Token, shut: Token)
    requires sup < i && i + 1 + |e| <= |tokens|
    ensures var p := Placed(tokens, i, sup, 1, [open] + e);
      && p[i] == open && (forall k :: i < k < i + 1 + |e| ==> p[k] == e[k - i - 1])
      && p[i := shut] == Placed(tokens, i, sup, 1, [shut] + e)
  {
    var p := Placed(tokens, i, sup, 1, [open] + e);
    forall k | i < k < i + 1 + |e| ensures p[k] == e[k - i - 1] {
      assert ([open] + e)[k - i] == e[k - i - 1];
    }
  }

  // ---- the text of lists ----

  lemma BracketedText(js: seq<nat>, pos: nat, open: nat, blank: seq<nat>, body: seq<nat>, close: nat)
    requires At(js, pos, [open] + (blank + body) + [close])
    ensures pos + |blank| + |body| + 1 < |js| && js[pos] == open && js[pos + 1 + |blank| + |body|] == close
    ensures At(js, pos + 1, blank) && At(js, pos + 1 + |blank|, body)
  {
    hide At;
    var s := [open] + (blank + body) + [close];
    AtIndex(js, pos, s, 0);
    AtIndex(js, pos, s, |blank + body| + 1);
    AtParts(js, pos, [open] + (blank + body), [close]);
    AtParts(js, pos, [open], blank + body);
    AtParts(js, pos + 1, blank, body);
  }

  lemma ListText(js: seq<nat>, pos: nat, head: seq<nat>, rest: seq<nat>)
    requires At(js, pos, head + [44] + rest)
    ensures At(js, pos, head) && pos + |head| < |js| && js[pos + |head|] == 44 && At(js, pos + |head| + 1, rest)
  {
    assert head + [44] + rest == head + ([44] + rest);
    AtParts(js, pos, head, [44] + rest);
    AtIndex(js, pos + |head|, [44] + rest, 0);
    AtParts(js, pos + |head|, [44], rest);
  }

  lemma PairText(js: seq<nat>, pos: nat, p: Pair)
    requires At(js, pos, PrintPair(p))
    ensures At(js, pos, p.before) && At(js, pos + |p.before|, [QUOTE] + p.key + [QUOTE])
    ensures var q := pos + |p.before| + |p.key| + 2;
      && At(js, q, p.gap) && q + |p.gap| < |js| && js[q + |p.gap|] == 58 && At(js, q + |p.gap| + 1, PrintItem(p.item))
  {
    hide At, PrintItem;
    ColonText(js, pos, p.before, [QUOTE] + p.key + [QUOTE], p.gap, PrintItem(p.item));
  }

  lemma ColonText(js: seq<nat>, pos: nat, before: seq<nat>, quoted: seq<nat>, gap: seq<nat>, rest: seq<nat>)
    requires At(js, pos, before + (quoted + (gap + ([58] + rest))))
    ensures At(js, pos, before) && At(js, pos + |before|, quoted)
    ensures var q := pos + |before| + |quoted|;
      At(js, q, gap) && q + |gap| < |js| && js[q + |gap|] == 58 && At(js, q + |gap| + 1, rest)
  {
    hide At;
    var tail := gap + ([58] + rest);
    AtParts(js, pos, before, quoted + tail);
    AtParts(js, pos + |before|, quoted, tail);
    GapText(js, pos + |before| + |quoted|, gap, rest);
  }

  lemma GapText(js: seq<nat>, q: nat, gap: seq<nat>, rest: seq<nat>)
    requires At(js, q, gap + ([58] + rest))
    ensures At(js, q, gap) && q + |gap| < |js| && js[q + |gap|] == 58 && At(js, q + |gap| + 1, rest)
  {
    hide At;
    AtParts(js, q, gap, [58] + rest);
    AtBound(js, q + |gap|, [58] + rest);
    AtIndex(js, q + |gap|, [58] + rest, 0);
    AtParts(js, q + |gap|, [58], rest);
  }

  /** White space moves the parser on, and changes nothing else. */
  lemma {:induction false} BlankAt(js: seq<nat>, st: State, blank: seq<nat>)
    requires Linked(st) && IsBlank(blank) && At(js, st.pos, blank)
    ensures Reaches(js, st, st.(pos := st.pos + |blank|)) && Linked(st.(pos := st.pos + |blank|))
    decreases |blank|
  {
    hide Parse, Climb, OpenContainer, CloseContainer, StringToken, PrimitiveToken, At, Reaches;
    if blank == [] {
      ReachesSelf(js, st);
    } else {
      AtIndex(js, st.pos, blank, 0);
      AtTail(js, st.pos, blank, 1);
      var next := st.(pos := st.pos + 1);
      OneStep(js, st, next, false);
      BlankAt(js, next, blank[1..]);
      ReachesTrans(js, st, next, st.(pos := st.pos + |blank|));
    }
  }

  // ---- values, items and pairs, together ----

  /** What may follow a value: a primitive needs its delimiter. */
  predicate Followed(js: seq<nat>, p: nat, j: Json)
  {
    j.Prim? ==> p < |js| && EndsPrimitive(js[p])
  }

  predicate ItemFollowed(js: seq<nat>, p: nat, i: Item)
  {
    i.after == [] ==> Followed(js, p, i.value)
  }

  lemma {:induction false} ParsesValue(js: seq<nat>, st: State, j: Json)
    requires Linked(st) && Valid(j) && CanTake(st)
    requires At(js, st.pos, Print(j)) && Followed(js, st.pos + |Print(j)|, j)
    requires st.toknext + |Expected(st, j)| <= |st.tokens|
    ensures Linked(After(st, j)) && Reaches(js, st, After(st, j))
    decreases j, 2
  {
    hide Parse, Reaches, At, Placed, PrintItems, PrintPairs, ExpectItems, ExpectPairs, ExpectedClosed, IsChars, Linked;
    ExpectIsClosed(j, st.pos, st.toknext, st.toksuper);
    AfterIsLinked(st, j);
    match j {
      case Str(chars) => StringAt(js, st, chars);
      case Prim(text) => PrimitiveAt(js, st, text);
      case Arr(blank, items) => ParsesArray(js, st, blank, items);
      case Obj(blank, pairs) => ParsesObject(js, st, blank, pairs);
    }
  }

  lemma AfterIsLinked(st: State, j: Json)
    requires Linked(st) && st.toknext + |Expected(st, j)| <= |st.tokens|
    ensures Linked(After(st, j))
  {
    ExpectIsClosed(j, st.pos, st.toknext, st.toksuper);
    PlacedIsLinked(st, st.pos + |Print(j)|, st.toksuper, 1, Expected(st, j));
  }

  /** A value where it stands behind its white space. */
  function ValueState(st: State, i: Item): State
  {
    st.(pos := st.pos + |i.before|)
  }

  function AfterItem(st: State, i: Item): State
    requires Linked(st) && st.toknext + |Expected(ValueState(st, i), i.value)| <= |st.tokens|
  {
    After(ValueState(st, i), i.value).(pos := st.pos + |PrintItem(i)|)
  }

  lemma ItemText(js: seq<nat>, pos: nat, i: Item)
    requires At(js, pos, PrintItem(i)) && ValidItem(i) && ItemFollowed(js, pos + |PrintItem(i)|, i)
    ensures At(js, pos, i.before) && At(js, pos + |i.before|, Print(i.value))
    ensures At(js, pos + |i.before| + |Print(i.value)|, i.after)
    ensures Followed(js, pos + |i.before| + |Print(i.value)|, i.value)
  {
    hide Print, At, Valid;
    AtParts(js, pos, i.before, Print(i.value) + i.after);
    AtParts(js, pos + |i.before|, Print(i.value), i.after);
    if i.after != [] {
      AtIndex(js, pos + |i.before| + |Print(i.value)|, i.after, 0);
      AtBound(js, pos + |i.before| + |Print(i.value)|, i.after);
    }
  }

  lemma {:induction false} ParsesItem(js: seq<nat>, st: State, i: Item)
    requires Linked(st) && ValidItem(i) && CanTake(st)
    requires At(js, st.pos, PrintItem(i)) && ItemFollowed(js, st.pos + |PrintItem(i)|, i)
    requires st.toknext + |Expected(ValueState(st, i), i.value)| <= |st.tokens|
    ensures Linked(AfterItem(st, i)) && Reaches(js, st, AfterItem(st, i))
    decreases i, 0
  {
    hide Parse, Reaches, At, Placed, Expect, Print, Valid, Followed;
    ItemText(js, st.pos, i);
    BlankAt(js, st, i.before);
    var s1 := ValueState(st, i);
    ParsesValue(js, s1, i.value);
    var s2 := After(s1, i.value);
    BlankAt(js, s2, i.after);
    assert AfterItem(st, i) == s2.(pos := s2.pos + |i.after|);
    ReachesTrans(js, st, s1, s2);
    ReachesTrans(js, st, s2, AfterItem(st, i));
  }

  lemma {:induction false} ParsesArray(js: seq<nat>, st: State, blank: seq<nat>, items: seq<Item>)
    requires Linked(st) && IsBlank(blank) && ValidItems(items) && CanTake(st)
    requires At(js, st.pos, Print(Arr(blank, items)))
    requires st.toknext + |Expected(st, Arr(blank, items))| <= |st.tokens|
    ensures Reaches(js, st, After(st, Arr(blank, items)))
    decreases items, 1
  {
    hide Parse, Reaches, At, Placed, PrintItems, ExpectItems, ExpectedClosed, IsBlank;
    var i := st.toknext;
    BracketedText(js, st.pos, 91, blank, PrintItems(items), 93);
    OpenAt(js, st, Array);
    var open := Opened(st, Array);
    BlankAt(js, open, blank);
    var inside := open.(pos := open.pos + |blank|);
    var e := ExpectItems(items, st.pos + 1 + |blank|, i + 1, i);
    var mid := ParsesItems(js, inside, items);
    PlacedUnder(st.tokens, i, st.toksuper, Token(Array, st.pos, -1, 0, st.toksuper), |items|, e);
    ExpectItemsClosed(items, st.pos + 1 + |blank|, i + 1, i);
    ReachesTrans(js, st, open, inside);
    ReachesTrans(js, st, inside, mid);
    ReachesLinked(js, st, mid);
    AfterIsLinked(st, Arr(blank, items));
    CloseAt(js, st, Array, |items|, e, mid);
    ReachesTrans(js, st, mid, After(st, Arr(blank, items)));
  }

  lemma {:induction false} ParsesObject(js: seq<nat>, st: State, blank: seq<nat>, pairs: seq<Pair>)
    requires Linked(st) && IsBlank(blank) && ValidPairs(pairs) && CanTake(st)
    requires At(js, st.pos, Print(Obj(blank, pairs)))
    requires st.toknext + |Expected(st, Obj(blank, pairs))| <= |st.tokens|
    ensures Reaches(js, st, After(st, Obj(blank, pairs)))
    decreases pairs, 1
  {
    hide Parse, Reaches, At, Placed, PrintPairs, ExpectPairs, ExpectedClosed, IsBlank;
    var i := st.toknext;
    BracketedText(js, st.pos, 123, blank, PrintPairs(pairs), 125);
    OpenAt(js, st, Object);
    var open := Opened(st, Object);
    BlankAt(js, open, blank);
    var inside := open.(pos := open.pos + |blank|);
    var e := ExpectPairs(pairs, st.pos + 1 + |blank|, i + 1, i);
    var mid := ParsesPairs(js, inside, i, pairs);
    PlacedUnder(st.tokens, i, st.toksuper, Token(Object, st.pos, -1, 0, st.toksuper), |pairs|, e);
    ExpectPairsClosed(pairs, st.pos + 1 + |blank|, i + 1, i);
    ReachesTrans(js, st, open, inside);
    ReachesTrans(js, st, inside, mid);
    ReachesLinked(js, st, mid);
    AfterIsLinked(st, Obj(blank, pairs));
    CloseAt(js, st, Object, |pairs|, e, mid);
    ReachesTrans(js, st, mid, After(st, Obj(blank, pairs)));
  }

  lemma ReachesLinked(js: seq<nat>, s: State, t: State)
    requires Reaches(js, s, t)
    ensures Linked(s) && Linked(t)
  {
  }

  /** The items, up to what stands behind them. */
  lemma {:induction false} ParsesItems(js: seq<nat>, st: State, items: seq<Item>) returns (end: State)
    requires Linked(st) && ValidItems(items)
    requires st.toksuper >= 0 && st.tokens[st.toksuper].kind == Array
    requires At(js, st.pos, PrintItems(items)) && st.pos + |PrintItems(items)| < |js|
    requires EndsPrimitive(js[st.pos + |PrintItems(items)|])
    requires st.toknext + |ExpectItems(items, st.pos, st.toknext, st.toksuper)| <= |st.tokens|
    ensures var e := ExpectItems(items, st.pos, st.toknext, st.toksuper);
      && end == State(st.pos + |PrintItems(items)|, st.toknext + |e|, st.toksuper,
                      Placed(st.tokens, st.toknext, st.toksuper, |items|, e))
      && Reaches(js, st, end)
    decreases items, 0
  {
    hide Parse, Reaches, At, Placed, Expect, PrintItem, ValidItem;
    var a := st.toksuper;
    if items == [] {
      end := st;
      ReachesSelf(js, st);
      PlacedNothing(st.tokens, st.toknext, a);
      return;
    }
    var i := items[0];
    var e := Expected(ValueState(st, i), i.value);
    var f := ExpectItems(items[1..], st.pos + |PrintItem(i)| + 1, st.toknext + |e|, a);
    if |items| == 1 {
      assert f == [] && e + f == e;
      ParsesItem(js, st, i);
      end := AfterItem(st, i);
      return;
    }
    ListText(js, st.pos, PrintItem(i), PrintItems(items[1..]));
    ParsesItem(js, st, i);
    var mid := AfterItem(st, i);
    PlacedAt(st.tokens, st.toknext, a, 1, e);
    CommaAt(js, mid);
    var next := mid.(pos := mid.pos + 1);
    end := ParsesItems(js, next, items[1..]);
    PlacedNext(st.tokens, st.toknext, a, 1, e, |items| - 1, f);
    ReachesTrans(js, st, mid, next);
    ReachesTrans(js, st, next, end);
  }

  lemma {:induction false} ParsesPairs(js: seq<nat>, st: State, o: nat, pairs: seq<Pair>) returns (end: State)
    requires Linked(st) && ValidPairs(pairs)
    requires st.toksuper == o && st.tokens[o].kind == Object
    requires At(js, st.pos, PrintPairs(pairs)) && st.pos + |PrintPairs(pairs)| < |js|
    requires EndsPrimitive(js[st.pos + |PrintPairs(pairs)|])
    requires st.toknext + |ExpectPairs(pairs, st.pos, st.toknext, o)| <= |st.tokens|
    ensures var e := ExpectPairs(pairs, st.pos, st.toknext, o);
      && end.pos == st.pos + |PrintPairs(pairs)| && end.toknext == st.toknext + |e|
      && end.tokens == Placed(st.tokens, st.toknext, o, |pairs|, e)
      && Reaches(js, st, end)
    decreases pairs, 0
  {
    hide Parse, Reaches, At, Placed, ExpectPair, PrintPair, IsChars, ValidItem, IsBlank;
    if pairs == [] {
      end := st;
      ReachesSelf(js, st);
      PlacedNothing(st.tokens, st.toknext, o);
      return;
    }
    var p := pairs[0];
    var e := ExpectPair(p, st.pos, st.toknext, o);
    var f := ExpectPairs(pairs[1..], st.pos + |PrintPair(p)| + 1, st.toknext + |e|, o);
    if |pairs| == 1 {
      assert f == [] && e + f == e;
      end := ParsesPair(js, st, o, p);
      return;
    }
    ListText(js, st.pos, PrintPair(p), PrintPairs(pairs[1..]));
    var mid := ParsesPair(js, st, o, p);
    ReachesLinked(js, st, mid);
    PairPlaced(st, o, p);
    CommaAt(js, mid);
    var next := mid.(pos := mid.pos + 1, toksuper := o);
    end := ParsesPairs(js, next, o, pairs[1..]);
    PlacedNext(st.tokens, st.toknext, o, 1, e, |pairs| - 1, f);
    ReachesTrans(js, st, mid, next);
    ReachesTrans(js, st, next, end);
  }

  lemma PairPlaced(st: State, o: nat, p: Pair)
    requires Linked(st) && st.toksuper == o && st.toknext + |ExpectPair(p, st.pos, st.toknext, o)| <= |st.tokens|
    ensures var e := ExpectPair(p, st.pos, st.toknext, o); var t := Placed(st.tokens, st.toknext, o, 1, e);
      && |e| > 0 && t[st.toknext].kind == String && t[st.toknext].parent == o && t[o].kind == st.tokens[o].kind
  {
    hide Expect;
  }

  lemma {:induction false} ParsesPair(js: seq<nat>, st: State, o: nat, p: Pair) returns (end: State)
    requires Linked(st) && IsBlank(p.before) && IsChars(p.key, false) && IsBlank(p.gap) && ValidItem(p.item)
    requires st.toksuper == o && st.tokens[o].kind == Object
    requires At(js, st.pos, PrintPair(p)) && ItemFollowed(js, st.pos + |PrintPair(p)|, p.item)
    requires st.toknext + |ExpectPair(p, st.pos, st.toknext, o)| <= |st.tokens|
    ensures var e := ExpectPair(p, st.pos, st.toknext, o);
      && end == State(st.pos + |PrintPair(p)|, st.toknext + |e|, st.toknext, Placed(st.tokens, st.toknext, o, 1, e))
      && Reaches(js, st, end)
    decreases p, 0
  {
    hide Parse, Reaches, At, Placed, Expect, PrintItem, IsChars, ValidItem, IsBlank, ItemFollowed;
    var i := st.toknext;
    PairText(js, st.pos, p);
    BlankAt(js, st, p.before);
    var s0 := st.(pos := st.pos + |p.before|);
    var key := Token(String, s0.pos + 1, s0.pos + 1 + |p.key|, 0, o);
    StringAt(js, s0, p.key);
    var s1 := State(s0.pos + |p.key| + 2, i + 1, o, Placed(st.tokens, i, o, 1, [key]));
    ReachesLinked(js, s0, s1);
    PlacedAt(st.tokens, i, o, 1, [key]);
    BlankAt(js, s1, p.gap);
    var s1' := s1.(pos := s1.pos + |p.gap|);
    ColonAt(js, s1');
    var s2 := s1'.(pos := s1'.pos + 1, toksuper := i);
    ParsesItem(js, s2, p.item);
    end := AfterItem(s2, p.item);
    PlacedUnder(st.tokens, i, o, key, 1, Expect(p.item.value, ValuePos(p, st.pos), i + 1, i));
    ReachesTrans(js, st, s0, s1);
    ReachesTrans(js, st, s1, s1');
    ReachesTrans(js, st, s1', s2);
    ReachesTrans(js, st, s2, end);
  }

  /** `jsmn_parse` of any JSON text, with room for its tokens, returns the token count and
      exactly the pre-order token list. Only a number or a literal that is the whole text
      needs white space behind it. */
  lemma ParsesPrinted(root: Item, tokens: seq<Token>)
    requires ValidItem(root) && (root.value.Prim? ==> root.after != [])
    requires |Expect(root.value, |root.before|, 0, -1)| <= |tokens|
    ensures var e := Expect(root.value, |root.before|, 0, -1);
      Parse(PrintItem(root), State(0, 0, -1, tokens), false, false)
      == (|e|, State(|PrintItem(root)|, |e|, -1, e + tokens[|e|..]))
  {
    var js := PrintItem(root);
    var st := State(0, 0, -1, tokens);
    var e := Expect(root.value, |root.before|, 0, -1);
    assert js[0..0 + |js|] == js;
    ParsesItem(js, st, root);
    var end := AfterItem(st, root);
    assert end == State(|js|, |e|, -1, e + tokens[|e|..]);
    ExpectIsClosed(root.value, |root.before|, 0, -1);
    assert !AnyOpen(end) by {
      assert forall i :: 0 <= i < |e| ==> end.tokens[i] == e[i];
    }
  }

  /** Without it, the parser asks for more. */
  lemma BarePrimitiveIsPartial(root: Item, tokens: seq<Token>)
    requires ValidItem(root) && root.value.Prim? && root.after == []
    ensures Parse(PrintItem(root), State(0, 0, -1, tokens), false, false).0 == PART
  {
    hide Parse, IsBlank, PlainPrimitive, IsNumber;
    var text := root.value.text;
    PrimitiveIsPlain(text);
    assert Print(root.value) == text && text + root.after == text;
    BareText(root.before, text, tokens);
  }

  lemma BareText(before: seq<nat>, text: seq<nat>, tokens: seq<Token>)
    requires IsBlank(before) && PlainPrimitive(text)
    ensures Parse(before + text, State(0, 0, -1, tokens), false, false).0 == PART
  {
    hide Parse, Reaches, IsBlank, StartsPrimitive, EndsPrimitive;
    var js := before + text;
    assert js[0..|before|] == before;
    var st := State(0, 0, -1, tokens);
    BlankAt(js, st, before);
    assert forall i :: |before| <= i < |js| ==> js[i] == text[i - |before|];
    PrimitiveRunsOut(js, |before|);
    assert js[|before|] == text[0];
    PrimitiveRefused(js, st.(pos := |before|));
    ReachesSame(js, st, st.(pos := |before|));
  }

  lemma ReachesSame(js: seq<nat>, s: State, t: State)
    requires Reaches(js, s, t)
    ensures Parse(js, s, false, false) == Parse(js, t, false, false)
  {
  }

  lemma PrimitiveRefused(js: seq<nat>, st: State)
    requires Linked(st) && st.toksuper == -1 && st.pos < |js| && StartsPrimitive(js[st.pos]) && ScanPrimitive(js, st.pos) == Fails(PART)
    ensures Parse(js, st, false, false) == (PART, st)
  {
    hide ScanPrimitive, Climb, OpenContainer, CloseContainer, StringToken, Leaf;
  }

  lemma {:induction false} PrimitiveRunsOut(js: seq<nat>, p: nat)
    requires p <= |js| && forall i :: p <= i < |js| ==> 32 < js[i] < 127 && !EndsPrimitive(js[i])
    ensures ScanPrimitive(js, p) == Fails(PART)
    decreases |js| - p
  {
    if p < |js| {
      PrimitiveRunsOut(js, p + 1);
    }
  }

  // ---- what is no text ----

  /** An array whose items are parsed stands open, whatever follows. */
  lemma OpenArray(js: seq<nat>, blank: seq<nat>, items: seq<Item>, tokens: seq<Token>) returns (mid: State)
    requires IsBlank(blank) && ValidItems(items) && 1 + |ExpectItems(items, 1 + |blank|, 1, 0)| <= |tokens|
    requires At(js, 0, [91] + (blank + PrintItems(items))) && 1 + |blank| + |PrintItems(items)| < |js|
    requires EndsPrimitive(js[1 + |blank| + |PrintItems(items)|])
    ensures mid.pos == 1 + |blank| + |PrintItems(items)| && Linked(mid) && Reaches(js, State(0, 0, -1, tokens), mid)
    ensures 0 < mid.toknext && mid.tokens[0].kind == Array && mid.tokens[0].start == 0 && mid.tokens[0].end == -1
    ensures ClosedUnder(mid.tokens, 1, mid.toknext, 0)
  {
    hide Parse, Reaches, At, Placed, PrintItems, ExpectItems, ExpectedClosed, IsBlank;
    var st := State(0, 0, -1, tokens);
    AtIndex(js, 0, [91] + (blank + PrintItems(items)), 0);
    AtParts(js, 0, [91], blank + PrintItems(items));
    AtParts(js, 1, blank, PrintItems(items));
    OpenAt(js, st, Array);
    var open := Opened(st, Array);
    BlankAt(js, open, blank);
    var inside := open.(pos := open.pos + |blank|);
    var e := ExpectItems(items, 1 + |blank|, 1, 0);
    mid := ParsesItems(js, inside, items);
    ReachesTrans(js, st, open, inside);
    ReachesTrans(js, st, inside, mid);
    ReachesLinked(js, st, mid);
    ExpectItemsClosed(items, 1 + |blank|, 1, 0);
    var k := Token(Array, 0, -1, 0, -1);
    PlacedUnder(tokens, 0, -1, k, |items|, e);
    OpenPlaced(tokens, k.(size := |items|), e);
  }

  lemma OpenPlaced(tokens: seq<Token>, k: Token, e: seq<Token>)
    requires 1 + |e| <= |tokens| && ExpectedClosed(e, 1, 0)
    ensures var t := Placed(tokens, 0, -1, 1, [k] + e); t[0] == k && ClosedUnder(t, 1, 1 + |e|, 0)
  {
    ContainerPlaced(tokens, 0, -1, e, k, k);
  }

  /** An array closed as an object is refused. */
  lemma WrongBracketIsRefused(blank: seq<nat>, items: seq<Item>, tokens: seq<Token>)
    requires IsBlank(blank) && ValidItems(items) && 1 + |ExpectItems(items, 1 + |blank|, 1, 0)| <= |tokens|
    ensures Parse([91] + (blank + PrintItems(items)) + [125], State(0, 0, -1, tokens), false, false).0 == INVAL
  {
    hide Reaches, PrintItems, ExpectItems, IsBlank;
    var text := [91] + (blank + PrintItems(items));
    var js := text + [125];
    assert js[0..0 + |text|] == text;
    hide Parse;
    var mid := OpenArray(js, blank, items, tokens);
    ReachesSame(js, State(0, 0, -1, tokens), mid);
    if mid.toknext > 1 { ClimbsTo(mid, Object, 1, 0, mid.toknext - 1); }
    StepAtClose(js, mid, Object);
    StepRefused(js, mid);
  }

  lemma StepRefused(js: seq<nat>, st: State)
    requires Linked(st) && st.pos < |js| && js[st.pos] != 0 && Step(js, st).Return?
    ensures Parse(js, st, false, false) == (Step(js, st).code, Step(js, st).st)
  {
    hide Step;
  }

  /** An array that is not closed asks for more. */
  lemma OpenArrayIsPartial(blank: seq<nat>, items: seq<Item>, tokens: seq<Token>)
    requires IsBlank(blank) && ValidItems(items) && 1 + |ExpectItems(items, 1 + |blank|, 1, 0)| <= |tokens|
    ensures Parse([91] + (blank + PrintItems(items)) + [32], State(0, 0, -1, tokens), false, false).0 == PART
  {
    hide Reaches, PrintItems, ExpectItems, IsBlank;
    var text := [91] + (blank + PrintItems(items));
    var js := text + [32];
    assert js[0..0 + |text|] == text;
    hide Parse;
    var mid := OpenArray(js, blank, items, tokens);
    ReachesSame(js, State(0, 0, -1, tokens), mid);
    SpaceThenEnd(js, mid);
  }

  lemma SpaceThenEnd(js: seq<nat>, st: State)
    requires Linked(st) && st.pos + 1 == |js| && js[st.pos] == 32
    requires st.toknext > 0 && st.tokens[0].start != -1 && st.tokens[0].end == -1
    ensures Parse(js, st, false, false).0 == PART
  {
    hide Climb, OpenContainer, CloseContainer, StringToken, PrimitiveToken;
    var t := st.(pos := st.pos + 1);
    assert Step(js, st) == Next(t, false);
    assert AnyOpen(t);
  }

  /** Only strings are keys: what else opens a value right behind a brace is refused. */
  lemma OnlyStringsAreKeys(blank: seq<nat>, c: nat, rest: seq<nat>, tokens: seq<Token>)
    requires IsBlank(blank) && |tokens| >= 2
    requires c in {91, 123, 45, 116, 102, 110} || 48 <= c <= 57
    ensures Parse([123] + blank + [c] + rest, State(0, 0, -1, tokens), false, false).0 == INVAL
  {
    hide Parse, Reaches, At, IsBlank, ScanString, ScanPrimitive;
    var js := [123] + blank + [c] + rest;
    BlankText(blank, c, rest);
    var st := State(0, 0, -1, tokens);
    OpenAt(js, st, Object);
    var open := Opened(st, Object);
    BlankAt(js, open, blank);
    var at := open.(pos := open.pos + |blank|);
    ReachesTrans(js, st, open, at);
    ReachesSame(js, st, at);
    assert at.tokens[0].kind == Object;
    KeyRefused(js, at);
    StepRefused(js, at);
  }

  lemma BlankText(blank: seq<nat>, c: nat, rest: seq<nat>)
    ensures var js := [123] + blank + [c] + rest;
      js[0] == 123 && At(js, 1, blank) && js[1 + |blank|] == c
  {
    var js := [123] + blank + [c] + rest;
    assert js[1..1 + |blank|] == blank;
  }

  lemma KeyRefused(js: seq<nat>, st: State)
    requires Linked(st) && st.toksuper >= 0 && st.tokens[st.toksuper].kind == Object && st.toknext < |st.tokens|
    requires st.pos < |js| && (js[st.pos] in {91, 123, 45, 116, 102, 110} || 48 <= js[st.pos] <= 57)
    ensures Step(js, st).Return? && Step(js, st).code == INVAL
  {
    hide ScanPrimitive, ScanString, Climb;
  }

  /** A character that begins nothing of JSON is refused wherever a token may begin. */
  lemma StrayCharacterIsRefused(js: seq<nat>, st: State)
    requires Linked(st) && st.pos < |js| && js[st.pos] != 0 && !IsBlank([js[st.pos]])
    requires js[st.pos] !in {0x22, 0x2C, 0x3A, 0x5B, 0x5D, 0x7B, 0x7D, 0x2D, 0x74, 0x66, 0x6E} && !IsDigits([js[st.pos]])
    ensures Parse(js, st, false, false) == (INVAL, st)
  {
    hide ScanPrimitive, ScanString, Climb;
    assert [js[st.pos]][0] == js[st.pos];
  }

  /** What is taken for a number or a literal: printable characters, up to white space, a
      comma or a closing bracket. */
  lemma {:induction false} PrimitiveEndsIff(js: seq<nat>, p: nat, q: nat)
    requires p <= q < |js|
    ensures ScanPrimitive(js, p) == Ends(q) <==>
      && js[q] in {0x20, 0x09, 0x0A, 0x0D, 0x2C, 0x5D, 0x7D}
      && forall i :: p <= i < q ==> 0x20 < js[i] < 0x7F && js[i] !in {0x2C, 0x5D, 0x7D}
    decreases q - p
  {
    if p < q && !EndsPrimitive(js[p]) && 32 <= js[p] < 127 {
      PrimitiveEndsIff(js, p + 1, q);
    }
  }

  // ---- walking the tags array ----

  /** A tag list: an array of arrays of strings. */
  predicate IsTagList(items: seq<Item>)
  {
    forall i :: 0 <= i < |items| ==>
      items[i].value.Arr? && forall k :: 0 <= k < |items[i].value.items| ==> items[i].value.items[k].value.Str?
  }

  /** Where tag `i` starts, counted in tokens from the outer array's token. */
  function TagStart(items: seq<Item>, i: nat): nat
    requires IsTagList(items) && i <= |items|
  {
    if i == 0 then 1 else TagStart(items, i - 1) + 1 + |items[i - 1].value.items|
  }

  lemma {:induction false} StringTokens(items: seq<Item>, pos: nat, idx: nat, parent: int)
    requires forall k :: 0 <= k < |items| ==> items[k].value.Str?
    ensures var e := ExpectItems(items, pos, idx, parent);
      |e| == |items| && forall k :: 0 <= k < |e| ==> e[k].kind == String && e[k].parent == parent
    decreases |items|
  {
    if items != [] {
      StringTokens(items[1..], pos + |PrintItem(items[0])| + 1, idx + 1, parent);
    }
  }

  lemma TagStartShifts(items: seq<Item>, i: nat)
    requires IsTagList(items) && items != [] && 0 < i <= |items|
    ensures TagStart(items, i) == 1 + |items[0].value.items| + TagStart(items[1..], i - 1)
    decreases i
  {
    if i > 1 {
      TagStartShifts(items, i - 1);
    }
  }

  /** At `at` stands an array token with its `n` strings behind it. */
  ghost predicate TagAt(e: seq<Token>, at: nat, n: nat, idx: int, parent: int)
  {
    && at + n < |e|
    && e[at].kind == Array && e[at].size == n && e[at].parent == parent
    && forall k :: at < k <= at + n ==> e[k].kind == String && e[k].parent == idx
  }

  lemma TagAtShifts(head: seq<Token>, tail: seq<Token>, at: nat, n: nat, idx: int, parent: int)
    ensures TagAt(tail, at, n, idx, parent) ==> TagAt(head + tail, |head| + at, n, idx, parent)
    ensures TagAt(head, at, n, idx, parent) ==> TagAt(head + tail, at, n, idx, parent)
  {
  }

  /** Tag `i` of the expected tokens. */
  lemma {:induction false} TagTokens(items: seq<Item>, pos: nat, idx: nat, parent: int, i: nat)
    requires IsTagList(items) && i < |items|
    ensures var at := TagStart(items, i) - 1;
      TagAt(ExpectItems(items, pos, idx, parent), at, |items[i].value.items|, idx + at, parent)
    decreases |items|
  {
    hide TagAt;
    var head := TagHead(items[0].value, pos + |items[0].before|, idx, parent);
    var pos' := pos + |PrintItem(items[0])| + 1;
    var tail := ExpectItems(items[1..], pos', idx + |head|, parent);
    assert ExpectItems(items, pos, idx, parent) == head + tail;
    hide Expect, ExpectItems, Print;
    if i == 0 {
      TagAtShifts(head, tail, 0, |items[0].value.items|, idx, parent);
    } else {
      TagStartShifts(items, i);
      TagTokens(items[1..], pos', idx + |head|, parent, i - 1);
      var at := TagStart(items[1..], i - 1) - 1;
      TagAtShifts(head, tail, at, |items[i].value.items|, idx + |head| + at, parent);
    }
  }

  lemma TagHead(tag: Json, pos: nat, idx: nat, parent: int) returns (e: seq<Token>)
    requires tag.Arr? && forall k :: 0 <= k < |tag.items| ==> tag.items[k].value.Str?
    ensures e == Expect(tag, pos, idx, parent) && |e| == 1 + |tag.items| && TagAt(e, 0, |tag.items|, idx, parent)
  {
    e := Expect(tag, pos, idx, parent);
    StringTokens(tag.items, pos + 1 + |tag.blank|, idx + 1, idx);
  }

  /** The tokens of the tag list stand in `tokens` from `base` on. */
  ghost predicate TagListAt(tokens: seq<Token>, base: nat, list: Json, pos: nat, parent: int)
  {
    var e := Expect(list, pos, base, parent);
    base + |e| <= |tokens| && tokens[base..base + |e|] == e
  }

  ghost predicate IsTagToken(tokens: seq<Token>, base: nat, items: seq<Item>, i: nat, at: nat)
    requires IsTagList(items) && i < |items|
  {
    && at == base + TagStart(items, i) && at < |tokens|
    && tokens[at].kind == Array && tokens[at].parent == base && tokens[at].size == |items[i].value.items|
  }

  lemma TagTokenAt(tokens: seq<Token>, base: nat, list: Json, pos: nat, parent: int, i: nat)
    requires list.Arr? && IsTagList(list.items) && TagListAt(tokens, base, list, pos, parent)
    ensures base < |tokens| && tokens[base].size == |list.items|
    ensures i < |list.items| ==>
      var at := base + TagStart(list.items, i);
      IsTagToken(tokens, base, list.items, i, at) && at < |tokens| && tokens[at].size == |list.items[i].value.items|
  {
    hide Expect, ExpectItems, Print, PrintItem, TagAt;
    var items := list.items;
    var e, inner := TagListTokens(list, pos, base, parent);
    SliceAt(tokens, base, e, 0);
    if i < |items| {
      TagTokens(items, pos + 1 + |list.blank|, base + 1, base, i);
      hide IsTagList;
      var at := TagStart(items, i);
      TagAtShifts(e[..1], inner, at - 1, |items[i].value.items|, base + at, base);
      SliceAt(tokens, base, e, at);
    }
  }

  lemma TagListTokens(list: Json, pos: nat, base: nat, parent: int) returns (e: seq<Token>, inner: seq<Token>)
    requires list.Arr?
    ensures e == Expect(list, pos, base, parent) && inner == ExpectItems(list.items, pos + 1 + |list.blank|, base + 1, base)
    ensures e != [] && e == e[..1] + inner && e[0].size == |list.items|
  {
    e, inner := Expect(list, pos, base, parent), ExpectItems(list.items, pos + 1 + |list.blank|, base + 1, base);
  }

  ghost predicate TokensAt(e: seq<Token>, at: nat, v: seq<Token>)
  {
    at + |v| <= |e| && e[at..at + |v|] == v
  }

  lemma TokensAtShifts(head: seq<Token>, tail: seq<Token>, at: nat, v: seq<Token>)
    ensures TokensAt(tail, at, v) ==> TokensAt(head + tail, |head| + at, v)
    ensures TokensAt(head, at, v) ==> TokensAt(head + tail, at, v)
  {
    if TokensAt(tail, at, v) {
      assert (head + tail)[|head| + at..|head| + at + |v|] == tail[at..at + |v|];
    }
    if TokensAt(head, at, v) {
      assert (head + tail)[at..at + |v|] == head[at..at + |v|];
    }
  }

  lemma PairTokens(p: Pair, pos: nat, idx: nat, parent: int)
    ensures TokensAt(ExpectPair(p, pos, idx, parent), 1, Expect(p.item.value, ValuePos(p, pos), idx + 1, idx))
  {
    hide Expect;
    var key, v := Token(String, pos + |p.before| + 1, pos + |p.before| + 1 + |p.key|, 1, parent), Expect(p.item.value, ValuePos(p, pos), idx + 1, idx);
    assert ([key] + v)[1..1 + |v|] == v;
  }

  lemma ExpectPairsSplits(pairs: seq<Pair>, pos: nat, idx: nat, parent: int) returns (head: seq<Token>, pos': nat)
    requires pairs != []
    ensures head == ExpectPair(pairs[0], pos, idx, parent)
    ensures ExpectPairs(pairs, pos, idx, parent) == head + ExpectPairs(pairs[1..], pos', idx + |head|, parent)
  {
    hide ExpectPair, PrintPair;
    head, pos' := ExpectPair(pairs[0], pos, idx, parent), pos + |PrintPair(pairs[0])| + 1;
  }

  /** Where the value of pair `k` stands among the tokens of an object's pairs. */
  lemma {:induction false} ValueTokens(pairs: seq<Pair>, pos: nat, idx: nat, parent: int, k: nat) returns (at: nat, vpos: nat)
    requires k < |pairs|
    ensures at > 0 && TokensAt(ExpectPairs(pairs, pos, idx, parent), at, Expect(pairs[k].item.value, vpos, idx + at, idx + at - 1))
    decreases k
  {
    hide Expect, ExpectPair, ExpectPairs, TokensAt;
    var head, pos' := ExpectPairsSplits(pairs, pos, idx, parent);
    var rest := ExpectPairs(pairs[1..], pos', idx + |head|, parent);
    if k == 0 {
      at, vpos := 1, ValuePos(pairs[0], pos);
      PairTokens(pairs[0], pos, idx, parent);
      TokensAtShifts(head, rest, 1, Expect(pairs[0].item.value, vpos, idx + 1, idx));
    } else {
      var at', vpos' := ValueTokens(pairs[1..], pos', idx + |head|, parent, k - 1);
      at, vpos := |head| + at', vpos';
      TokensAtShifts(head, rest, at', Expect(pairs[k].item.value, vpos, idx + at, idx + at - 1));
    }
  }

  lemma ObjectTokens(obj: Json, pos: nat, idx: nat, parent: int) returns (open: Token)
    requires obj.Obj?
    ensures Expect(obj, pos, idx, parent) == [open] + ExpectPairs(obj.pairs, pos + 1 + |obj.blank|, idx + 1, idx)
  {
    hide Print, ExpectPairs;
    open := Token(Object, pos, pos + |Print(obj)|, |obj.pairs|, parent);
  }

  /** After parsing an object, the tokens of a tag list that is the value of one of its
      keys stand where the walk over the tags looks for them. */
  lemma ParsedObjectHasTags(root: Item, k: nat, tokens: seq<Token>) returns (base: nat, pos: nat)
    requires ValidItem(root) && root.value.Obj? && |Expect(root.value, |root.before|, 0, -1)| <= |tokens|
    requires k < |root.value.pairs| && root.value.pairs[k].item.value.Arr?
    ensures base > 0
    ensures TagListAt(Parse(PrintItem(root), State(0, 0, -1, tokens), false, false).1.tokens, base,
                      root.value.pairs[k].item.value, pos, base - 1)
  {
    hide Parse, ValidItem, ExpectPairs, PrintItem, Expect, TokensAt;
    ParsesPrinted(root, tokens);
    var obj := root.value;
    var all := Expect(obj, |root.before|, 0, -1);
    var open := ObjectTokens(obj, |root.before|, 0, -1);
    var inside := |root.before| + 1 + |obj.blank|;
    var at, vpos := ValueTokens(obj.pairs, inside, 1, 0, k);
    base, pos := 1 + at, vpos;
    var v := Expect(obj.pairs[k].item.value, pos, base, base - 1);
    TokensAtShifts([open], ExpectPairs(obj.pairs, inside, 1, 0), at, v);
    TokensAtShifts(all, tokens[|all|..], base, v);
    TokensAreTagList(all + tokens[|all|..], base, obj.pairs[k].item.value, pos, base - 1);
  }

  lemma TokensAreTagList(tokens: seq<Token>, base: nat, list: Json, pos: nat, parent: int)
    requires TokensAt(tokens, base, Expect(list, pos, base, parent))
    ensures TagListAt(tokens, base, list, pos, parent)
  {
    hide Expect;
  }

  lemma SliceAt(tokens: seq<Token>, base: nat, e: seq<Token>, k: nat)
    requires base + |e| <= |tokens| && tokens[base..base + |e|] == e && k < |e|
    ensures tokens[base + k] == e[k]
  {
    assert tokens[base..base + |e|][k] == tokens[base + k];
  }

  lemma TagStartFirst(items: seq<Item>)
    requires IsTagList(items)
    ensures TagStart(items, 0) == 1
  {
  }

  lemma TagStartNext(items: seq<Item>, i: nat)
    requires IsTagList(items) && i < |items|
    ensures TagStart(items, i + 1) == TagStart(items, i) + 1 + |items[i].value.items|
  {
  }

  /** The loop of `ndb_builder_process_json_tags`, which skips from tag to tag by
      token sizes: on the tokens of a tag list it visits each inner array once. */
  method VisitTags(tokens: seq<Token>, base: nat, ghost list: Json, ghost pos: nat, ghost parent: int)
    returns (visited: seq<nat>)
    requires list.Arr? && IsTagList(list.items) && TagListAt(tokens, base, list, pos, parent)
    ensures |visited| == |list.items|
    ensures forall i :: 0 <= i < |visited| ==> IsTagToken(tokens, base, list.items, i, visited[i])
  {
    hide Expect, ExpectItems, ExpectPairs, TagListAt, IsTagList, IsTagToken, Print, PrintItem, TagStart;
    ghost var items := list.items;
    visited := [];
    TagTokenAt(tokens, base, list, pos, parent, 0);
    TagStartFirst(items);
    var tag := base;
    var i := 0;
    while i < tokens[base].size
      invariant 0 <= i <= |items|
      invariant tag + i + 1 == base + TagStart(items, i)
      invariant |visited| == i
      invariant forall x :: 0 <= x < i ==> IsTagToken(tokens, base, items, x, visited[x])
    {
      TagTokenAt(tokens, base, list, pos, parent, i);
      TagStartNext(items, i);
      visited := visited + [tag + i + 1];
      tag := tag + tokens[tag + i + 1].size;
      i := i + 1;
    }
  }
}
