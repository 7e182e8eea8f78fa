/** The text an event id commits to, as a JSON text (NIP-01, "Events and signatures"). */
module CommitmentJson {
  import opened Notes
  import opened Commitment
  import Filters
  import Layout
  import J = JsonTrees

  // ---- escapes ----

  /** What the letter behind a backslash stands for (section 7 of RFC 8259). */
  function Meaning(c: nat): nat
  {
    if c == 'b' as nat then 0x08
    else if c == 'f' as nat then 0x0C
    else if c == 'n' as nat then 0x0A
    else if c == 'r' as nat then 0x0D
    else if c == 't' as nat then 0x09
    else c
  }

  function Unescape(s: Text): Text
    decreases |s|
  {
    if s == [] then []
    else if s[0] == 0x5C && |s| >= 2 then [Meaning(s[1])] + Unescape(s[2..])
    else [s[0]] + Unescape(s[1..])
  }

  /** An escaped string reads as the string it was. */
  lemma {:induction false} UnescapeEscape(s: Text)
    ensures Unescape(Escape(s)) == s
    decreases |s|
  {
    if s != [] {
      UnescapeEscape(s[1..]);
      var e, rest := Escaped(s[0]), Escape(s[1..]);
      assert (e + rest)[|e|..] == rest;
      assert (e + rest)[0] == e[0] && (|e| == 2 ==> (e + rest)[1] == e[1]);
    }
  }

  /** NIP-01 names the characters that are escaped; all others stand for themselves. */
  lemma EscapedIff(c: nat)
    ensures Escaped(c) == [c] <==> c !in {0x08, 0x09, 0x0A, 0x0C, 0x0D, 0x22, 0x5C}
  {
  }

  /** A control character without an escape of one letter. */
  predicate Bare(c: nat)
  {
    c < 0x20 && c !in {0x08, 0x09, 0x0A, 0x0C, 0x0D}
  }

  lemma EscapedIsChar(c: nat, rest: Text)
    ensures J.FirstLength(Escaped(c) + rest, false) == if Bare(c) then 0 else |Escaped(c)|
  {
    var s := Escaped(c) + rest;
    assert s[0] == Escaped(c)[0];
    if |Escaped(c)| == 2 { assert s[1] == Escaped(c)[1]; }
  }

  /** An escaped string is one of JSON exactly if it has no such character. */
  lemma {:induction false} EscapeIsCharsIff(s: Text)
    ensures J.IsChars(Escape(s), false) <==> forall c :: c in s ==> !Bare(c)
    decreases |s|
  {
    if s != [] {
      hide Bare, Escaped, J.FirstLength;
      EscapeIsCharsIff(s[1..]);
      EscapedIsChar(s[0], Escape(s[1..]));
      assert (Escaped(s[0]) + Escape(s[1..]))[|Escaped(s[0])|..] == Escape(s[1..]);
      assert s == [s[0]] + s[1..];
    }
  }

  // ---- hex and numbers ----

  lemma HexDigitReads(v: nat)
    requires v < 16
    ensures Layout.HexValue(HexChar(v)) == v && Layout.IsHexDigit(HexChar(v))
  {
  }

  /** Ids may be spelled with capitals too; other characters are no hex. */
  lemma HexDigitIff(c: nat)
    ensures Layout.IsHexDigit(c) <==> J.IsHexDigit(c)
    ensures '0' as nat <= c <= '9' as nat ==> Layout.HexValue(c) == c - '0' as nat
    ensures 'a' as nat <= c <= 'f' as nat ==> Layout.HexValue(c) == c - 'a' as nat + 10
    ensures 'A' as nat <= c <= 'F' as nat ==> Layout.HexValue(c) == c - 'A' as nat + 10
  {
  }

  lemma PairReads(s: Text)
    requires |s| % 2 == 0 && s != []
    ensures |s| >= 2 && |s[2..]| % 2 == 0
    ensures Layout.DecodeHex(s) == [16 * Layout.HexValue(s[0]) + Layout.HexValue(s[1])] + Layout.DecodeHex(s[2..])
  {
    hide Layout.HexValue;
  }

  lemma HexHead(b: seq<nat>)
    requires IsBytes(b) && b != []
    ensures |Hex(b)| >= 2 && Hex(b)[0] == HexChar(b[0] / 16) && Hex(b)[1] == HexChar(b[0] % 16) && Hex(b)[2..] == Hex(b[1..])
  {
    hide HexChar;
    var pair, rest := [HexChar(b[0] / 16), HexChar(b[0] % 16)], Hex(b[1..]);
    assert Hex(b) == pair + rest;
    assert (pair + rest)[2..] == rest;
  }

  lemma HexDigitsRead(b: seq<nat>, i: nat)
    requires IsBytes(b) && i < |Hex(b)|
    ensures Layout.IsHexDigit(Hex(b)[i])
  {
    hide Hex;
  }

  lemma SplitByte(x: nat)
    requires x < 256
    ensures 16 * (x / 16) + x % 16 == x
  {
  }

  /** Hex reads back, and the hex of an id is taken for one. */
  lemma {:induction false} HexReadsBack(b: seq<nat>)
    requires IsBytes(b)
    ensures Layout.DecodeHex(Hex(b)) == b
    ensures |b| == 32 ==> Layout.IsHexId(Hex(b))
    decreases |b|
  {
    hide Layout.DecodeHex, HexChar, Layout.HexValue, Layout.IsHexDigit;
    forall i | 0 <= i < |Hex(b)| ensures Layout.IsHexDigit(Hex(b)[i]) {
      HexDigitsRead(b, i);
    }
    if b == [] {
      NothingReads();
    } else {
      hide Hex;
      HexReadsBack(b[1..]);
      HexDigitReads(b[0] / 16);
      HexDigitReads(b[0] % 16);
      HexHead(b);
      PairReads(Hex(b));
      SplitByte(b[0]);
      assert b == [b[0]] + b[1..];
    }
  }

  lemma NothingReads()
    ensures Layout.DecodeHex([]) == []
  {
  }

  lemma {:induction false} DigitsAreDigits(n: nat)
    ensures J.IsDigits(Digits(n)) && (n > 0 ==> Digits(n)[0] != 48) && (n == 0 ==> Digits(n) == [48])
    decreases n
  {
    if n >= 10 { DigitsAreDigits(n / 10); }
  }

  lemma DecimalIsNumber(n: int)
    ensures J.IsNumber(Decimal(n))
  {
    DigitsAreDigits(if n < 0 then -n else n);
    hide Digits, J.IsDigits;
    if n < 0 {
      assert J.NumberParts(Decimal(n), [MINUS], Digits(-n), [], []) by {
        assert Decimal(n) == [MINUS] + Digits(-n) + [] + [];
      }
    } else {
      assert J.NumberParts(Decimal(n), [], Digits(n), [], []) by {
        assert Decimal(n) == [] + Digits(n) + [] + [];
      }
    }
  }

  // ---- the tree ----

  function Cell(j: J.Json): J.Item
  {
    J.Item([], j, [])
  }

  function ElemItems(t: Tag): (items: seq<J.Item>)
    requires GoodTag(t)
    ensures |items| == |t|
  {
    if t == [] then [] else [Cell(J.Str(Escape(Reading(t[0]))))] + ElemItems(t[1..])
  }

  function TagItems(ts: seq<Tag>): (items: seq<J.Item>)
    requires GoodTags(ts)
    ensures |items| == |ts|
  {
    if ts == [] then [] else [Cell(J.Arr([], ElemItems(ts[0])))] + TagItems(ts[1..])
  }

  /** A list of value `j` and then `rest`. */
  function List(j: J.Json, rest: seq<J.Item>): seq<J.Item>
  {
    [Cell(j)] + rest
  }

  function Six(a: J.Json, b: J.Json, c: J.Json, d: J.Json, e: J.Json, f: J.Json): seq<J.Item>
  {
    List(a, List(b, List(c, List(d, List(e, List(f, []))))))
  }

  /** [0, pubkey, created_at, kind, tags, content], without white space. */
  function Tree(b: Body): J.Json
    requires IsBytes(b.pubkey) && GoodTags(b.tags)
  {
    J.Arr([], Six(J.Prim(['0' as nat]), J.Str(Hex(b.pubkey)),
                  J.Prim(Decimal(Filters.ToInt32(b.createdAt))), J.Prim(Decimal(Filters.ToInt32(b.kind))),
                  J.Arr([], TagItems(b.tags)), J.Str(Escape(CString(b.content)))))
  }

  lemma CellPrints(j: J.Json)
    ensures J.PrintItem(Cell(j)) == J.Print(j)
  {
    assert J.Print(j) + [] == J.Print(j) && [] + J.Print(j) == J.Print(j);
  }

  lemma ItemsPrint(i: J.Item, rest: seq<J.Item>)
    ensures J.PrintItems([i] + rest) == J.PrintItem(i) + (if rest == [] then [] else [COMMA] + J.PrintItems(rest))
  {
    hide J.PrintItem;
    assert ([i] + rest)[1..] == rest;
    if rest == [] { assert J.PrintItem(i) + [] == J.PrintItem(i); }
  }

  lemma ElemText(x: Text, c: Text, y: Text)
    ensures x + c + (y + [CLOSE]) == (x + (c + y)) + [CLOSE]
  {
  }

  lemma {:induction false} ElemsPrint(t: Tag)
    requires GoodTag(t)
    ensures PrintElems(t) == J.PrintItems(ElemItems(t)) + [CLOSE]
    decreases |t|
  {
    if t != [] {
      hide Escape, J.Print, J.PrintItems, J.PrintItem, Reading, PrintElem, Cell, GoodElem;
      var j, rest := J.Str(Escape(Reading(t[0]))), ElemItems(t[1..]);
      ElemPrints(t[0]);
      StrPrints(Escape(Reading(t[0])));
      ElemsPrint(t[1..]);
      CellsPrint(j, rest);
      NoItemsPrint();
      ElemText(J.Print(j), if |t| > 1 then [COMMA] else [], J.PrintItems(rest));
    }
  }

  lemma StrPrints(s: Text)
    ensures J.Print(J.Str(s)) == [QUOTE] + s + [QUOTE]
  {
  }

  lemma TagText(x: Text, c: Text, y: Text)
    ensures [OPEN] + (x + [CLOSE]) + c + (y + [CLOSE]) == (([OPEN] + x + [CLOSE]) + (c + y)) + [CLOSE]
    ensures c == [] && y == [] ==> c + y == []
  {
  }

  lemma {:induction false} TagsPrint(ts: seq<Tag>)
    requires GoodTags(ts)
    ensures PrintTags(ts) == J.PrintItems(TagItems(ts)) + [CLOSE]
    decreases |ts|
  {
    if ts != [] {
      hide J.Print, J.PrintItems, J.PrintItem, PrintElems, ElemItems, Cell, GoodTag;
      var j, rest := J.Arr([], ElemItems(ts[0])), TagItems(ts[1..]);
      ElemsPrint(ts[0]);
      ArrayPrints(ElemItems(ts[0]));
      TagsPrint(ts[1..]);
      CellsPrint(j, rest);
      NoItemsPrint();
      TagText(J.PrintItems(ElemItems(ts[0])), if |ts| > 1 then [COMMA] else [], J.PrintItems(rest));
    }
  }

  lemma NoItemsPrint()
    ensures J.PrintItems([]) == []
  {
  }

  lemma ArrayPrints(items: seq<J.Item>)
    ensures J.Print(J.Arr([], items)) == [OPEN] + J.PrintItems(items) + [CLOSE]
  {
    hide J.PrintItems;
    assert [] + J.PrintItems(items) == J.PrintItems(items);
  }

  lemma CellsPrint(j: J.Json, rest: seq<J.Item>)
    ensures J.PrintItems([Cell(j)] + rest) == J.Print(j) + (if rest == [] then [] else [COMMA] + J.PrintItems(rest))
  {
    hide J.Print, J.PrintItem, J.PrintItems;
    CellPrints(j);
    ItemsPrint(Cell(j), rest);
  }

  lemma ListPrints(j: J.Json, rest: seq<J.Item>)
    requires rest != []
    ensures List(j, rest) != [] && J.PrintItems(List(j, rest)) == J.Print(j) + ([COMMA] + J.PrintItems(rest))
  {
    hide J.Print, J.PrintItems;
    CellsPrint(j, rest);
  }

  lemma OnePrints(j: J.Json)
    ensures List(j, []) != [] && J.PrintItems(List(j, [])) == J.Print(j)
  {
    hide J.Print, J.PrintItems;
    CellsPrint(j, []);
    assert J.Print(j) + [] == J.Print(j);
  }

  lemma SixPrint(a: J.Json, b: J.Json, c: J.Json, d: J.Json, e: J.Json, f: J.Json)
    ensures J.PrintItems(Six(a, b, c, d, e, f)) ==
      J.Print(a) + ([COMMA] + (J.Print(b) + ([COMMA] + (J.Print(c) + ([COMMA] + (J.Print(d) + ([COMMA]
        + (J.Print(e) + ([COMMA] + J.Print(f))))))))))
  {
    hide J.Print, J.PrintItems, List;
    OnePrints(f);
    ListPrints(e, List(f, []));
    ListPrints(d, List(e, List(f, [])));
    ListPrints(c, List(d, List(e, List(f, []))));
    ListPrints(b, List(c, List(d, List(e, List(f, [])))));
    ListPrints(a, List(b, List(c, List(d, List(e, List(f, []))))));
  }

  /** The commitment is that array as it prints. */
  lemma CommitIsTree(b: Body)
    requires IsBytes(b.pubkey) && GoodTags(b.tags)
    ensures Commit(b) == J.Print(Tree(b))
  {
    var x, y, z := Decimal(Filters.ToInt32(b.createdAt)), Decimal(Filters.ToInt32(b.kind)), J.PrintItems(TagItems(b.tags));
    var h, s := Hex(b.pubkey), Escape(CString(b.content));
    TagsPrint(b.tags);
    ArrayPrints(TagItems(b.tags));
    var j1, j2, j3, j4, j5, j6 := J.Prim([48]), J.Str(h), J.Prim(x), J.Prim(y), J.Arr([], TagItems(b.tags)), J.Str(s);
    SixPrint(j1, j2, j3, j4, j5, j6);
    ArrayPrints(Six(j1, j2, j3, j4, j5, j6));
    LeavesPrint(h, x, y, s);
    CommitParts(b);
    hide Decimal, Escape, Hex, J.Print, J.PrintItems, PrintTags, Commit, Six;
    Together(h, x, y, z, s);
  }

  lemma LeavesPrint(h: Text, x: Text, y: Text, s: Text)
    ensures J.Print(J.Prim([48])) == [48] && J.Print(J.Prim(x)) == x && J.Print(J.Prim(y)) == y
    ensures J.Print(J.Str(h)) == [QUOTE] + h + [QUOTE] && J.Print(J.Str(s)) == [QUOTE] + s + [QUOTE]
  {
  }

  lemma CommitParts(b: Body)
    requires IsBytes(b.pubkey) && GoodTags(b.tags)
    ensures var x, y := Decimal(Filters.ToInt32(b.createdAt)), Decimal(Filters.ToInt32(b.kind));
      Commit(b) == [OPEN, 48, COMMA, QUOTE] + (Hex(b.pubkey) + ([QUOTE] + ([COMMA] + x + ([COMMA] + (y + ([COMMA] + ([OPEN] + PrintTags(b.tags)
        + ([COMMA] + (([QUOTE] + Escape(CString(b.content)) + [QUOTE]) + [CLOSE])))))))))
  {
    hide Decimal, Escape, Hex, PrintTags, Filters.ToInt32;
  }

  lemma Together(h: Text, x: Text, y: Text, z: Text, s: Text)
    ensures [OPEN, 48, COMMA, QUOTE] + (h + ([QUOTE] + ([COMMA] + x + ([COMMA] + (y + ([COMMA] + ([OPEN] + (z + [CLOSE])
              + ([COMMA] + (([QUOTE] + s + [QUOTE]) + [CLOSE])))))))))
      == [OPEN] + ([48] + ([COMMA] + (([QUOTE] + h + [QUOTE]) + ([COMMA] + (x + ([COMMA] + (y + ([COMMA]
           + (([OPEN] + z + [CLOSE]) + ([COMMA] + ([QUOTE] + s + [QUOTE]))))))))))) + [CLOSE]
  {
  }

  // ---- when it is JSON ----

  /** No string of the event has a control character without an escape of its own. */
  ghost predicate Printable(b: Body)
    requires GoodTags(b.tags)
  {
    && (forall i, j :: 0 <= i < |b.tags| && 0 <= j < |b.tags[i]| ==> forall c :: c in Reading(b.tags[i][j]) ==> !Bare(c))
    && forall c :: c in CString(b.content) ==> !Bare(c)
  }

  lemma ElemPrintable(e: TagElem)
    requires GoodElem(e)
    ensures J.Valid(J.Str(Escape(Reading(e)))) <==> forall c :: c in Reading(e) ==> !Bare(c)
  {
    EscapeIsCharsIff(Reading(e));
  }

  lemma CellValidIff(j: J.Json)
    ensures J.ValidItem(Cell(j)) <==> J.Valid(j)
  {
  }

  lemma ValidCons(i: J.Item, rest: seq<J.Item>)
    ensures J.ValidItems([i] + rest) <==> J.ValidItem(i) && J.ValidItems(rest)
  {
    assert ([i] + rest)[1..] == rest;
  }

  ghost predicate TagPrintable(t: Tag)
    requires GoodTag(t)
  {
    forall j :: 0 <= j < |t| ==> forall c :: c in Reading(t[j]) ==> !Bare(c)
  }

  lemma {:induction false} ElemsValidIff(t: Tag)
    requires GoodTag(t)
    ensures J.ValidItems(ElemItems(t)) <==> TagPrintable(t)
    decreases |t|
  {
    hide Escape, Bare, J.ValidItem, J.Valid, Cell, Reading;
    if t != [] {
      var j := J.Str(Escape(Reading(t[0])));
      ElemsValidIff(t[1..]);
      ElemPrintable(t[0]);
      CellValidIff(j);
      ValidCons(Cell(j), ElemItems(t[1..]));
      assert forall k :: 0 < k < |t| ==> t[k] == t[1..][k - 1];
      assert forall k :: 0 <= k < |t| - 1 ==> t[1..][k] == t[k + 1];
    }
  }

  lemma {:induction false} TagsValidIff(ts: seq<Tag>)
    requires GoodTags(ts)
    ensures J.ValidItems(TagItems(ts)) <==> forall i :: 0 <= i < |ts| ==> TagPrintable(ts[i])
    decreases |ts|
  {
    hide TagPrintable, J.ValidItem, J.Valid, Cell, ElemItems;
    if ts != [] {
      var j := J.Arr([], ElemItems(ts[0]));
      TagsValidIff(ts[1..]);
      ElemsValidIff(ts[0]);
      ArrayValidIff(ElemItems(ts[0]));
      CellValidIff(j);
      ValidCons(Cell(j), TagItems(ts[1..]));
      assert forall k :: 0 < k < |ts| ==> ts[k] == ts[1..][k - 1];
      assert forall k :: 0 <= k < |ts| - 1 ==> ts[1..][k] == ts[k + 1];
    }
  }

  lemma ArrayValidIff(items: seq<J.Item>)
    ensures J.Valid(J.Arr([], items)) <==> J.ValidItems(items)
  {
  }

  lemma {:induction false} PlainIsChars(t: Text)
    requires forall i :: 0 <= i < |t| ==> 48 <= t[i] <= 57 || 97 <= t[i] <= 102
    ensures J.IsChars(t, false)
    decreases |t|
  {
    if t != [] { PlainIsChars(t[1..]); }
  }

  lemma ZeroIsNumber()
    ensures J.Valid(J.Prim([48]))
  {
    DecimalIsNumber(0);
  }

  /** So an event commits to a JSON text if and only if it is printable so: there is no
      "\u" escape for the other control characters. */
  lemma CommitIsJsonIff(b: Body)
    requires IsBytes(b.pubkey) && GoodTags(b.tags)
    ensures Commit(b) == J.Print(Tree(b)) && (J.Valid(Tree(b)) <==> Printable(b))
  {
    CommitIsTree(b);
    var x, y := Decimal(Filters.ToInt32(b.createdAt)), Decimal(Filters.ToInt32(b.kind));
    var j1, j2, j3, j4, j5, j6 :=
      J.Prim([48]), J.Str(Hex(b.pubkey)), J.Prim(x), J.Prim(y), J.Arr([], TagItems(b.tags)), J.Str(Escape(CString(b.content)));
    ZeroIsNumber();
    PlainIsChars(Hex(b.pubkey));
    DecimalIsNumber(Filters.ToInt32(b.createdAt));
    DecimalIsNumber(Filters.ToInt32(b.kind));
    TagsValidIff(b.tags);
    ArrayValidIff(TagItems(b.tags));
    EscapeIsCharsIff(CString(b.content));
    ArrayValidIff(Six(j1, j2, j3, j4, j5, j6));
    PrintableIff(b);
    LeavesValid(Hex(b.pubkey), x, y, Escape(CString(b.content)));
    hide Commit, Printable, Escape, Hex, Decimal, J.Print, J.Valid, J.ValidItems, J.IsChars, J.IsNumber, Six, TagPrintable;
    SixValid(j1, j2, j3, j4, j5, j6);
  }

  lemma LeavesValid(h: Text, x: Text, y: Text, s: Text)
    ensures J.IsNumber(x) ==> J.Valid(J.Prim(x))
    ensures J.IsNumber(y) ==> J.Valid(J.Prim(y))
    ensures J.Valid(J.Str(h)) <==> J.IsChars(h, false)
    ensures J.Valid(J.Str(s)) <==> J.IsChars(s, false)
  {
  }

  lemma PrintableIff(b: Body)
    requires GoodTags(b.tags)
    ensures Printable(b) <==>
      (forall i :: 0 <= i < |b.tags| ==> TagPrintable(b.tags[i])) && forall c :: c in CString(b.content) ==> !Bare(c)
  {
    hide Bare, Reading;
  }

  lemma ListValid(j: J.Json, rest: seq<J.Item>)
    ensures J.ValidItems(List(j, rest)) <==> J.Valid(j) && J.ValidItems(rest)
  {
    CellValidIff(j);
    hide J.Valid, J.ValidItem;
    ValidCons(Cell(j), rest);
  }

  lemma SixValid(a: J.Json, b: J.Json, c: J.Json, d: J.Json, e: J.Json, f: J.Json)
    ensures J.ValidItems(Six(a, b, c, d, e, f))
       <==> J.Valid(a) && J.Valid(b) && J.Valid(c) && J.Valid(d) && J.Valid(e) && J.Valid(f)
  {
    assert J.ValidItems([]);
    hide J.Valid, J.ValidItems, List;
    ListValid(f, []);
    ListValid(e, List(f, []));
    ListValid(d, List(e, List(f, [])));
    ListValid(c, List(d, List(e, List(f, []))));
    ListValid(b, List(c, List(d, List(e, List(f, [])))));
    ListValid(a, List(b, List(c, List(d, List(e, List(f, []))))));
  }
}
