/** The jsmn tokenizer as nostrdb builds it: parent links, strict mode, and the
    stop-at-id change. */
module Jsmn {

  datatype TokenType = Undefined | Object | Array | String | Primitive

  datatype Token = Token(kind: TokenType, start: int, end: int, size: int, parent: int)

  // Parser fields and the token array.
  datatype State = State(pos: nat, toknext: nat, toksuper: int, tokens: seq<Token>)

  const NOMEM := -1
  const INVAL := -2
  const PART := -3
  const FOUND_ID := -42

  const QUOTE := 34
  const BACKSLASH := 92

  /** Token links that a parse starting from `jsmn_init` keeps. */
  predicate Linked(st: State)
  {
    && st.toknext <= |st.tokens|
    && -1 <= st.toksuper < st.toknext
    && forall k :: 0 <= k < st.toknext ==> -1 <= st.tokens[k].parent < k
  }

  // ---- scanning ----

  datatype Scan = Ends(at: nat) | Fails(code: int)

  predicate IsHex(c: nat)
  {
    48 <= c <= 57 || 65 <= c <= 70 || 97 <= c <= 102
  }

  // " / \ b f r n t
  predicate IsSimpleEscape(c: nat)
  {
    c in {34, 47, 92, 98, 102, 114, 110, 116}
  }

  /** Up to `n` more hex digits of a unicode escape. */
  function ScanHex(js: seq<nat>, p: nat, n: nat): (r: Scan)
    requires p <= |js|
    ensures r.Ends? ==> p <= r.at <= |js|
    ensures r.Fails? ==> r.code == INVAL
    decreases n
  {
    if n == 0 || p >= |js| || js[p] == 0 then Ends(p)
    else if !IsHex(js[p]) then Fails(INVAL)
    else ScanHex(js, p + 1, n - 1)
  }

  /** The loop of `jsmn_parse_string`, from the character after the quote. */
  function ScanString(js: seq<nat>, p: nat): (r: Scan)
    requires p <= |js|
    ensures r.Ends? ==> p <= r.at < |js|
    ensures r.Fails? ==> r.code == INVAL || r.code == PART
    decreases |js| - p
  {
    if p >= |js| || js[p] == 0 then Fails(PART)
    else if js[p] == QUOTE then Ends(p)
    else if js[p] == BACKSLASH && p + 1 < |js| then
      if IsSimpleEscape(js[p + 1]) then ScanString(js, p + 2)
      else if js[p + 1] == 117 then
        match ScanHex(js, p + 2, 4)
        case Fails(c) => Fails(c)
        case Ends(q) => ScanString(js, q)
      else Fails(INVAL)
    else ScanString(js, p + 1)
  }

  // tab CR LF space , ] }
  predicate EndsPrimitive(c: nat)
  {
    c in {9, 13, 10, 32, 44, 93, 125}
  }

  /** The loop of `jsmn_parse_primitive`: a primitive must be followed by a
      delimiter. */
  function ScanPrimitive(js: seq<nat>, p: nat): (r: Scan)
    requires p <= |js|
    ensures r.Ends? ==> p <= r.at < |js|
    ensures r.Fails? ==> r.code == INVAL || r.code == PART
    decreases |js| - p
  {
    if p >= |js| || js[p] == 0 then Fails(PART)
    else if EndsPrimitive(js[p]) then Ends(p)
    else if js[p] < 32 || js[p] >= 127 then Fails(INVAL)
    else ScanPrimitive(js, p + 1)
  }

  // ---- one character ----

  datatype Outcome = Next(st: State, isString: bool) | Return(code: int, st: State)

  /** `jsmn_alloc_token`; the type keeps whatever was there. */
  function Blank(t: Token): Token
  {
    Token(t.kind, -1, -1, 0, -1)
  }

  function Grown(tokens: seq<Token>, i: int): seq<Token>
    requires i < |tokens|
  {
    if i < 0 then tokens else tokens[i := tokens[i].(size := tokens[i].size + 1)]
  }

  function OpenContainer(st: State, kind: TokenType): (r: Outcome)
    requires Linked(st)
    ensures Linked(r.st) && |r.st.tokens| == |st.tokens|
    ensures if r.Next? then r.st.pos == st.pos + 1 && !r.isString else r.code == NOMEM || r.code == INVAL
  {
    if st.toknext >= |st.tokens| then Return(NOMEM, st)
    else
      var i := st.toknext;
      var ts := st.tokens[i := Blank(st.tokens[i])];
      if st.toksuper != -1 && ts[st.toksuper].kind == Object then
        Return(INVAL, st.(toknext := i + 1, tokens := ts))
      else
        var ts' := Grown(ts, st.toksuper);
        Next(State(st.pos + 1, i + 1, i, ts'[i := Token(kind, st.pos, -1, 0, st.toksuper)]), false)
  }

  /** The walk up the parent links from token `k` to the token to close. */
  function Climb(st: State, kind: TokenType, k: nat): (r: Outcome)
    requires Linked(st) && k < st.toknext
    ensures Linked(r.st) && |r.st.tokens| == |st.tokens|
    ensures if r.Next? then r.st.pos == st.pos + 1 && !r.isString else r.code == INVAL
    decreases k
  {
    var t := st.tokens[k];
    if t.start != -1 && t.end == -1 then
      if t.kind != kind then Return(INVAL, st)
      else Next(State(st.pos + 1, st.toknext, t.parent, st.tokens[k := t.(end := st.pos + 1)]), false)
    else if t.parent == -1 then
      if t.kind != kind || st.toksuper == -1 then Return(INVAL, st)
      else Next(st.(pos := st.pos + 1), false)
    else Climb(st, kind, t.parent)
  }

  function CloseContainer(st: State, kind: TokenType): (r: Outcome)
    requires Linked(st)
    ensures Linked(r.st) && |r.st.tokens| == |st.tokens|
    ensures if r.Next? then r.st.pos == st.pos + 1 && !r.isString else r.code == INVAL
  {
    if st.toknext < 1 then Return(INVAL, st) else Climb(st, kind, st.toknext - 1)
  }

  /** Fill the next token with `kind` and span, and count it in its superior. */
  function Leaf(st: State, kind: TokenType, start: int, end: int, next: nat): (r: Outcome)
    requires Linked(st) && next > st.pos
    ensures Linked(r.st) && |r.st.tokens| == |st.tokens|
    ensures if r.Next? then r.st.pos == next && r.isString == (kind == String) && r.st.toknext == st.toknext + 1
            else r.code == NOMEM
    ensures r.Next? ==> r.st.tokens[st.toknext].start == start && r.st.tokens[st.toknext].end == end
  {
    if st.toknext >= |st.tokens| then Return(NOMEM, st)
    else
      var i := st.toknext;
      var ts := st.tokens[i := Token(kind, start, end, 0, st.toksuper)];
      Next(State(next, i + 1, st.toksuper, Grown(ts, st.toksuper)), kind == String)
  }

  function StringToken(js: seq<nat>, st: State): (r: Outcome)
    requires Linked(st) && st.pos < |js|
    ensures Linked(r.st) && |r.st.tokens| == |st.tokens|
    ensures if r.Next? then st.pos < r.st.pos <= |js| && r.isString && r.st.toknext == st.toknext + 1
            else r.code != FOUND_ID && r.code < 0
    ensures r.Next? ==> var t := r.st.tokens[st.toknext]; t.start == st.pos + 1 <= t.end == r.st.pos - 1
  {
    match ScanString(js, st.pos + 1)
    case Fails(c) => Return(c, st)
    case Ends(q) => Leaf(st, String, st.pos + 1, q, q + 1)
  }

  function PrimitiveToken(js: seq<nat>, st: State): (r: Outcome)
    requires Linked(st) && st.pos < |js|
    ensures Linked(r.st) && |r.st.tokens| == |st.tokens|
    ensures if r.Next? then st.pos < r.st.pos <= |js| && !r.isString else r.code != FOUND_ID && r.code < 0
  {
    if st.toksuper != -1
       && (st.tokens[st.toksuper].kind == Object
           || (st.tokens[st.toksuper].kind == String && st.tokens[st.toksuper].size != 0)) then Return(INVAL, st)
    else
      match ScanPrimitive(js, st.pos)
      case Fails(c) => Return(c, st)
      case Ends(q) =>
        if q == st.pos then Return(INVAL, st) else Leaf(st, Primitive, st.pos, q, q)
  }

  // - 0..9 t f n
  predicate StartsPrimitive(c: nat)
  {
    c == 45 || 48 <= c <= 57 || c == 116 || c == 102 || c == 110
  }

  /** One turn of the loop of `jsmn_parse`. */
  function Step(js: seq<nat>, st: State): (r: Outcome)
    requires Linked(st) && st.pos < |js|
    ensures Linked(r.st) && |r.st.tokens| == |st.tokens|
    ensures if r.Next? then st.pos < r.st.pos <= |js| else r.code != FOUND_ID && r.code < 0
    ensures r.Next? && r.isString ==>
      r.st.toknext > 0 && var t := r.st.tokens[r.st.toknext - 1]; 0 < t.start <= t.end < |js|
  {
    var c := js[st.pos];
    if c == 123 then OpenContainer(st, Object)
    else if c == 91 then OpenContainer(st, Array)
    else if c == 125 then CloseContainer(st, Object)
    else if c == 93 then CloseContainer(st, Array)
    else if c == QUOTE then StringToken(js, st)
    else if c in {9, 13, 10, 32} then Next(st.(pos := st.pos + 1), false)
    else if c == 58 then Next(st.(pos := st.pos + 1, toksuper := st.toknext - 1), false)
    else if c == 44 then
      if st.toksuper != -1 && st.tokens[st.toksuper].kind != Array && st.tokens[st.toksuper].kind != Object then
        Next(st.(pos := st.pos + 1, toksuper := st.tokens[st.toksuper].parent), false)
      else Next(st.(pos := st.pos + 1), false)
    else if StartsPrimitive(c) then PrimitiveToken(js, st)
    else Return(INVAL, st)
  }

  /** After the loop: an unclosed object or array means more input is expected. */
  predicate AnyOpen(st: State)
    requires st.toknext <= |st.tokens|
  {
    exists i :: 0 <= i < st.toknext && st.tokens[i].start != -1 && st.tokens[i].end == -1
  }

  function Finish(st: State): int
    requires st.toknext <= |st.tokens|
  {
    if AnyOpen(st) then PART else st.toknext
  }

  predicate IsIdKey(js: seq<nat>, t: Token)
    requires 0 <= t.start <= t.end <= |js|
  {
    t.end - t.start == 2 && js[t.start] == 105 && js[t.start + 1] == 100
  }

  /** Exactly a quote starts a string token. */
  lemma StringSteps(js: seq<nat>, st: State)
    requires Linked(st) && st.pos < |js|
    ensures var o := Step(js, st);
      o.Next? ==> st.pos < o.st.pos <= |js| && (o.isString <==> js[st.pos] == QUOTE) && Linked(o.st)
                  && (o.isString ==> o.st.toknext > 0 && var t := o.st.tokens[o.st.toknext - 1]; 0 < t.start <= t.end < |js|)
  {
    hide Climb, Leaf, ScanString, ScanPrimitive;
  }

  /** `jsmn_parse` with `stop_at_id`: a 64-character string after an "id" string
      stops the parse with -42. */
  function Parse(js: seq<nat>, st: State, stop: bool, idkey: bool): (r: (int, State))
    requires Linked(st)
    ensures Linked(r.1) && |r.1.tokens| == |st.tokens|
    ensures !stop ==> r.0 != FOUND_ID
    decreases |js| - st.pos
  {
    if st.pos >= |js| || js[st.pos] == 0 then (Finish(st), st)
    else
      match Step(js, st)
      case Return(code, s) => (code, s)
      case Next(s, isString) =>
        if stop && isString then
          var t := s.tokens[s.toknext - 1];
          if idkey && t.end - t.start == 64 then (FOUND_ID, s)
          else Parse(js, s, stop, idkey || IsIdKey(js, t))
        else Parse(js, s, stop, idkey)
  }

  /** Stopping at the id and resuming is invisible: from wherever a stopped parse
      left off, parsing on gives the result, tokens and parser state of one
      uninterrupted parse; and a parse that did not stop is that parse. */
  lemma {:induction false} StopAndResume(js: seq<nat>, st: State, idkey: bool)
    requires Linked(st)
    ensures var (code, s) := Parse(js, st, true, idkey);
      Parse(js, st, false, false) == if code == FOUND_ID then Parse(js, s, false, false) else (code, s)
    decreases |js| - st.pos
  {
    IdkeyIrrelevant(js, st, idkey);
    if st.pos < |js| && js[st.pos] != 0 {
      var o := Step(js, st);
      if o.Next? {
        if o.isString {
          var t := o.st.tokens[o.st.toknext - 1];
          if !(idkey && t.end - t.start == 64) {
            StopAndResume(js, o.st, idkey || IsIdKey(js, t));
          }
        } else {
          StopAndResume(js, o.st, idkey);
        }
      }
    }
  }

  lemma {:induction false} IdkeyIrrelevant(js: seq<nat>, st: State, idkey: bool)
    requires Linked(st)
    ensures Parse(js, st, false, idkey) == Parse(js, st, false, false)
    decreases |js| - st.pos
  {
    if st.pos < |js| && js[st.pos] != 0 {
      var o := Step(js, st);
      if o.Next? {
        IdkeyIrrelevant(js, o.st, idkey);
      }
    }
  }

  // ---- where a stopping parse stops ----

  /** Token `t` is the string "id" of the text. */
  predicate IsIdString(js: seq<nat>, t: Token)
  {
    t.kind == String && 0 <= t.start && t.end == t.start + 2 <= |js| && js[t.start] == 'i' as nat && js[t.start + 1] == 'd' as nat
  }

  predicate IsLongString(t: Token)
  {
    t.kind == String && t.end == t.start + 64
  }

  /** String tokens stay, but for their sizes, and no other token becomes one. */
  ghost predicate KeepsStrings(ts: seq<Token>, ts': seq<Token>, n: nat)
    requires n <= |ts| && n <= |ts'|
  {
    forall k :: 0 <= k < n ==> (ts[k].kind == String || ts'[k].kind == String ==>
      ts'[k].kind == ts[k].kind && ts'[k].start == ts[k].start && ts'[k].end == ts[k].end)
  }

  lemma {:induction false} ClimbKeepsStrings(st: State, kind: TokenType, k: nat)
    requires Linked(st) && k < st.toknext && kind != String
    ensures var r := Climb(st, kind, k); r.st.toknext == st.toknext && KeepsStrings(st.tokens, r.st.tokens, st.toknext)
    decreases k
  {
    var t := st.tokens[k];
    if !(t.start != -1 && t.end == -1) && t.parent != -1 {
      ClimbKeepsStrings(st, kind, t.parent);
    }
  }

  lemma CloseKeepsStrings(st: State, kind: TokenType)
    requires Linked(st) && kind != String
    ensures var r := CloseContainer(st, kind); r.st.toknext == st.toknext && KeepsStrings(st.tokens, r.st.tokens, st.toknext)
  {
    hide Climb;
    if st.toknext >= 1 { ClimbKeepsStrings(st, kind, st.toknext - 1); }
  }

  lemma SameKeeps(st: State)
    requires Linked(st)
    ensures KeepsStrings(st.tokens, st.tokens, st.toknext)
  {
  }

  lemma OpenKeepsStrings(st: State, kind: TokenType)
    requires Linked(st) && kind != String
    ensures var r := OpenContainer(st, kind);
      && st.toknext <= r.st.toknext <= st.toknext + 1 && KeepsStrings(st.tokens, r.st.tokens, st.toknext)
      && (r.st.toknext == st.toknext + 1 ==>
            var t := r.st.tokens[st.toknext]; t.kind != String || t.start == t.end == -1)
  {
  }

  lemma StringKeepsStrings(js: seq<nat>, st: State)
    requires Linked(st) && st.pos < |js|
    ensures var r := StringToken(js, st);
      && KeepsStrings(st.tokens, r.st.tokens, st.toknext)
      && (if r.Next? then r.st.toknext == st.toknext + 1 && r.st.tokens[st.toknext].kind == String
                          && r.st.tokens[st.toknext].start > 0 && r.st.tokens[st.toknext].end + 1 == r.st.pos
          else r.st.toknext == st.toknext)
  {
    hide ScanString;
  }

  lemma PrimitiveKeepsStrings(js: seq<nat>, st: State)
    requires Linked(st) && st.pos < |js|
    ensures var r := PrimitiveToken(js, st);
      && st.toknext <= r.st.toknext <= st.toknext + 1 && KeepsStrings(st.tokens, r.st.tokens, st.toknext)
      && (r.st.toknext == st.toknext + 1 ==> r.st.tokens[st.toknext].kind == Primitive)
  {
    hide ScanPrimitive;
  }

  /** One turn keeps the strings there were, and adds one exactly where it says so. */
  lemma StepKeepsStrings(js: seq<nat>, st: State)
    requires Linked(st) && st.pos < |js|
    ensures var r := Step(js, st);
      && st.toknext <= r.st.toknext <= st.toknext + 1 && KeepsStrings(st.tokens, r.st.tokens, st.toknext)
      && (r.Next? && r.isString ==> r.st.toknext == st.toknext + 1 && r.st.tokens[st.toknext].kind == String
                                    && r.st.tokens[st.toknext].start > 0 && r.st.tokens[st.toknext].end + 1 == r.st.pos)
      && (!(r.Next? && r.isString) && r.st.toknext == st.toknext + 1 ==>
            r.st.tokens[st.toknext].kind != String || r.st.tokens[st.toknext].start == r.st.tokens[st.toknext].end == -1)
  {
    hide Linked, StringToken, PrimitiveToken, OpenContainer, CloseContainer, KeepsStrings;
    StringKeepsStrings(js, st);
    PrimitiveKeepsStrings(js, st);
    OpenKeepsStrings(st, Object);
    OpenKeepsStrings(st, Array);
    CloseKeepsStrings(st, Object);
    CloseKeepsStrings(st, Array);
    SameKeeps(st);
  }

  /** Among the tokens from `from` on, an "id" before a string of 64 characters. */
  ghost predicate IdThenLong(js: seq<nat>, ts: seq<Token>, from: nat, to: nat)
    requires to <= |ts|
  {
    exists k, m :: from <= k < m < to && IsIdString(js, ts[k]) && IsLongString(ts[m])
  }

  ghost predicate AnyId(js: seq<nat>, ts: seq<Token>, from: nat, to: nat)
    requires to <= |ts|
  {
    exists k :: from <= k < to && IsIdString(js, ts[k])
  }

  /** What a turn does to that: only the string it adds can complete it. */
  lemma TurnAdds(js: seq<nat>, st: State, from: nat)
    requires Linked(st) && st.pos < |js| && from <= st.toknext && !IdThenLong(js, st.tokens, from, st.toknext)
    ensures var r := Step(js, st); var s := r.st;
      && st.toknext <= s.toknext
      && (AnyId(js, s.tokens, from, s.toknext)
          <==> AnyId(js, st.tokens, from, st.toknext) || (r.Next? && r.isString && IsIdString(js, s.tokens[s.toknext - 1])))
      && (IdThenLong(js, s.tokens, from, s.toknext)
          <==> r.Next? && r.isString && AnyId(js, st.tokens, from, st.toknext) && IsLongString(s.tokens[s.toknext - 1]))
      && (r.Next? && r.isString ==> s.pos == s.tokens[s.toknext - 1].end + 1 && !IdThenLong(js, s.tokens, from, s.toknext - 1))
  {
    hide Step;
    StepKeepsStrings(js, st);
    var r := Step(js, st);
    OneMore(js, st.tokens, r.st.tokens, from, st.toknext, r.st.toknext);
  }

  lemma OneMore(js: seq<nat>, ts: seq<Token>, ts': seq<Token>, from: nat, n: nat, m: nat)
    requires from <= n <= m <= n + 1 && m <= |ts'| && n <= |ts| && KeepsStrings(ts, ts', n)
    requires !IdThenLong(js, ts, from, n)
    ensures !IdThenLong(js, ts', from, n)
    ensures AnyId(js, ts', from, m) <==> AnyId(js, ts, from, n) || (m > n && IsIdString(js, ts'[n]))
    ensures IdThenLong(js, ts', from, m) <==> m > n && AnyId(js, ts, from, n) && IsLongString(ts'[n])
  {
    forall k | from <= k < n
      ensures (IsIdString(js, ts[k]) <==> IsIdString(js, ts'[k])) && (IsLongString(ts[k]) <==> IsLongString(ts'[k]))
    {
    }
    if AnyId(js, ts, from, n) {
      var k :| from <= k < n && IsIdString(js, ts[k]);
      assert IsIdString(js, ts'[k]);
    }
  }

  /** A parse told to stop does so behind the first string of 64 characters that has an
      "id" before it, and runs on exactly if there is none. */
  lemma {:induction false} StopsIff(js: seq<nat>, st: State, idkey: bool, from: nat)
    requires Linked(st) && from <= st.toknext && !IdThenLong(js, st.tokens, from, st.toknext)
    requires idkey <==> AnyId(js, st.tokens, from, st.toknext)
    ensures var (code, s) := Parse(js, st, true, idkey);
      && (code == FOUND_ID <==> IdThenLong(js, s.tokens, from, s.toknext))
      && (code == FOUND_ID ==>
            && s.toknext > 0 && IsLongString(s.tokens[s.toknext - 1]) && s.pos == s.tokens[s.toknext - 1].end + 1
            && !IdThenLong(js, s.tokens, from, s.toknext - 1))
    decreases |js| - st.pos
  {
    hide Step, IdThenLong, AnyId;
    if st.pos < |js| && js[st.pos] != 0 {
      TurnAdds(js, st, from);
      var o := Step(js, st);
      if o.Next? {
        if o.isString {
          IdTokens(js, st);
          var t := o.st.tokens[o.st.toknext - 1];
          if !(idkey && t.end - t.start == 64) {
            StopsIff(js, o.st, idkey || IsIdKey(js, t), from);
          }
        } else {
          StopsIff(js, o.st, idkey, from);
        }
      }
    }
  }

  lemma IdTokens(js: seq<nat>, st: State)
    requires Linked(st) && st.pos < |js| && Step(js, st).Next? && Step(js, st).isString
    ensures var s := Step(js, st).st; var t := s.tokens[s.toknext - 1];
      && (IsIdString(js, t) <==> IsIdKey(js, t)) && (IsLongString(t) <==> t.end - t.start == 64)
  {
    hide Step;
    StepKeepsStrings(js, st);
  }

  // ---- the parser object ----

  class Parser {
    var pos: nat
    var toknext: nat
    var toksuper: int

    function Now(tokens: array<Token>): State
      reads this, tokens
    {
      State(pos, toknext, toksuper, tokens[..])
    }

    /** `jsmn_init` */
    constructor ()
      ensures pos == 0 && toknext == 0 && toksuper == -1
    {
      pos, toknext, toksuper := 0, 0, -1;
    }

    /** The four hex digits of a unicode escape. */
    method SkipHex(js: seq<nat>) returns (ok: bool)
      requires pos <= |js|
      modifies this`pos
      ensures match ScanHex(js, old(pos), 4) case Fails(_) => !ok case Ends(q) => ok && pos == q
    {
      var i := 0;
      while i < 4 && pos < |js| && js[pos] != 0
        invariant 0 <= i <= 4 && old(pos) <= pos <= |js|
        invariant ScanHex(js, old(pos), 4) == ScanHex(js, pos, 4 - i)
      {
        if !IsHex(js[pos]) {
          return false;
        }
        pos := pos + 1;
        i := i + 1;
      }
      return true;
    }

    /** The escape at a backslash; leaves `pos` on its last character. */
    method SkipEscape(js: seq<nat>) returns (ok: bool)
      requires pos + 1 < |js| && js[pos] == BACKSLASH
      modifies this`pos
      ensures if ok then old(pos) < pos < |js| && ScanString(js, old(pos)) == ScanString(js, pos + 1)
              else ScanString(js, old(pos)) == Fails(INVAL)
    {
      pos := pos + 1;
      ok := true;
      if IsSimpleEscape(js[pos]) {
      } else if js[pos] == 117 {
        pos := pos + 1;
        ok := SkipHex(js);
        if ok {
          pos := pos - 1;
        }
      } else {
        ok := false;
      }
    }

    /** `jsmn_parse_string` */
    method ParseString(js: seq<nat>, tokens: array<Token>) returns (r: int)
      requires Linked(Now(tokens)) && pos < |js|
      modifies this, tokens
      ensures match ScanString(js, old(pos) + 1)
        case Fails(c) => r == c && Now(tokens) == old(Now(tokens))
        case Ends(q) =>
          if old(toknext) >= tokens.Length then r == NOMEM && Now(tokens) == old(Now(tokens))
          else r == 0 && Now(tokens) == State(q, old(toknext) + 1, old(toksuper),
                 old(tokens[..])[old(toknext) := Token(String, old(pos) + 1, q, 0, old(toksuper))])
    {
      var start := pos;
      pos := pos + 1;
      while pos < |js| && js[pos] != 0
        invariant start < pos <= |js|
        invariant toknext == old(toknext) && toksuper == old(toksuper) && tokens[..] == old(tokens[..])
        invariant ScanString(js, start + 1) == ScanString(js, pos)
        decreases |js| - pos
      {
        var c := js[pos];
        if c == QUOTE {
          if toknext >= tokens.Length {
            pos := start;
            return NOMEM;
          }
          tokens[toknext] := Token(String, start + 1, pos, 0, toksuper);
          toknext := toknext + 1;
          return 0;
        }
        if c == BACKSLASH && pos + 1 < |js| {
          var ok := SkipEscape(js);
          if !ok {
            pos := start;
            return INVAL;
          }
        }
        pos := pos + 1;
      }
      pos := start;
      return PART;
    }

    /** `jsmn_parse_primitive`; `pos` ends on the last character. */
    method ParsePrimitive(js: seq<nat>, tokens: array<Token>) returns (r: int)
      requires Linked(Now(tokens)) && pos < |js| && StartsPrimitive(js[pos])
      modifies this, tokens
      ensures match ScanPrimitive(js, old(pos))
        case Fails(c) => r == c && Now(tokens) == old(Now(tokens))
        case Ends(q) =>
          if old(toknext) >= tokens.Length then r == NOMEM && Now(tokens) == old(Now(tokens))
          else r == 0 && q > old(pos) && Now(tokens) == State(q - 1, old(toknext) + 1, old(toksuper),
                 old(tokens[..])[old(toknext) := Token(Primitive, old(pos), q, 0, old(toksuper))])
    {
      var start := pos;
      while pos < |js| && js[pos] != 0
        invariant start <= pos <= |js|
        invariant toknext == old(toknext) && toksuper == old(toksuper) && tokens[..] == old(tokens[..])
        invariant ScanPrimitive(js, start) == ScanPrimitive(js, pos)
        decreases |js| - pos
      {
        if EndsPrimitive(js[pos]) {
          if toknext >= tokens.Length {
            pos := start;
            return NOMEM;
          }
          tokens[toknext] := Token(Primitive, start, pos, 0, toksuper);
          toknext := toknext + 1;
          pos := pos - 1;
          return 0;
        }
        if js[pos] < 32 || js[pos] >= 127 {
          pos := start;
          return INVAL;
        }
        pos := pos + 1;
      }
      pos := start;
      return PART;
    }

    /** The cases '{' and '[' of `jsmn_parse`. */
    method Open(tokens: array<Token>, kind: TokenType) returns (r: int)
      requires Linked(Now(tokens))
      modifies this, tokens
      ensures match OpenContainer(old(Now(tokens)), kind)
        case Return(code, s) => r == code && Now(tokens) == s
        case Next(s, _) => r == 0 && Now(tokens) == s.(pos := old(pos))
    {
      if toknext >= tokens.Length {
        return NOMEM;
      }
      var i := toknext;
      tokens[i] := Blank(tokens[i]);
      toknext := toknext + 1;
      if toksuper != -1 {
        if tokens[toksuper].kind == Object {
          return INVAL;
        }
        tokens[toksuper] := tokens[toksuper].(size := tokens[toksuper].size + 1);
        tokens[i] := tokens[i].(parent := toksuper);
      }
      tokens[i] := tokens[i].(kind := kind, start := pos);
      toksuper := toknext - 1;
      return 0;
    }

    /** The cases '}' and ']' of `jsmn_parse`. */
    method Close(tokens: array<Token>, kind: TokenType) returns (r: int)
      requires Linked(Now(tokens))
      modifies this, tokens
      ensures match CloseContainer(old(Now(tokens)), kind)
        case Return(code, s) => r == code && Now(tokens) == s
        case Next(s, _) => r == 0 && Now(tokens) == s.(pos := old(pos))
    {
      if toknext < 1 {
        return INVAL;
      }
      var k := toknext - 1;
      while true
        invariant 0 <= k < toknext && Now(tokens) == old(Now(tokens))
        invariant CloseContainer(old(Now(tokens)), kind) == Climb(old(Now(tokens)), kind, k)
        decreases k
      {
        var t := tokens[k];
        if t.start != -1 && t.end == -1 {
          if t.kind != kind {
            return INVAL;
          }
          tokens[k] := t.(end := pos + 1);
          toksuper := t.parent;
          return 0;
        }
        if t.parent == -1 {
          if t.kind != kind || toksuper == -1 {
            return INVAL;
          }
          return 0;
        }
        k := t.parent;
      }
    }

    method Grow(tokens: array<Token>)
      requires toksuper < tokens.Length
      modifies tokens
      ensures tokens[..] == Grown(old(tokens[..]), toksuper)
    {
      if toksuper >= 0 {
        tokens[toksuper] := tokens[toksuper].(size := tokens[toksuper].size + 1);
      }
    }

    /** One turn of the loop up to its `pos++`; `r` is 0 to go on. */
    method Turn(js: seq<nat>, tokens: array<Token>) returns (r: int)
      requires Linked(Now(tokens)) && pos < |js|
      modifies this, tokens
      ensures match Step(js, old(Now(tokens)))
        case Return(code, s) => r == code && r != 0 && Now(tokens) == s
        case Next(s, _) => r == 0 && Now(tokens).(pos := pos + 1) == s
    {
      var c := js[pos];
      if c == 123 {
        r := Open(tokens, Object);
      } else if c == 91 {
        r := Open(tokens, Array);
      } else if c == 125 {
        r := Close(tokens, Object);
      } else if c == 93 {
        r := Close(tokens, Array);
      } else if c == QUOTE {
        r := ParseString(js, tokens);
        if r < 0 {
          return;
        }
        Grow(tokens);
      } else if c in {9, 13, 10, 32} {
        r := 0;
      } else if c == 58 {
        toksuper := toknext - 1;
        r := 0;
      } else if c == 44 {
        if toksuper != -1 && tokens[toksuper].kind != Array && tokens[toksuper].kind != Object {
          toksuper := tokens[toksuper].parent;
        }
        r := 0;
      } else if StartsPrimitive(c) {
        if toksuper != -1 {
          var t := tokens[toksuper];
          if t.kind == Object || (t.kind == String && t.size != 0) {
            return INVAL;
          }
        }
        r := ParsePrimitive(js, tokens);
        if r < 0 {
          return;
        }
        Grow(tokens);
      } else {
        r := INVAL;
      }
    }

    /** `jsmn_parse`: `count` is kept as the source does and returned at the end. */
    method Run(js: seq<nat>, tokens: array<Token>, stopAtId: bool) returns (r: int)
      requires Linked(Now(tokens))
      modifies this, tokens
      ensures (r, Now(tokens)) == Parse(js, old(Now(tokens)), stopAtId, false)
    {
      hide Step, Finish;
      ghost var before := Now(tokens);
      var count := toknext;
      var idkey := false;
      while pos < |js| && js[pos] != 0
        invariant Linked(Now(tokens)) && count == toknext
        invariant Parse(js, before, stopAtId, false) == Parse(js, Now(tokens), stopAtId, idkey)
        decreases |js| - pos
      {
        var c := js[pos];
        var first := toknext;
        ghost var st := Now(tokens);
        StringSteps(js, st);
        r := Turn(js, tokens);
        if r != 0 {
          return;
        }
        count := count + (toknext - first);
        if c == QUOTE && stopAtId {
          var t := tokens[toknext - 1];
          if idkey && t.end - t.start == 64 {
            pos := pos + 1;
            return FOUND_ID;
          } else if !idkey && IsIdKey(js, t) {
            idkey := true;
          }
        }
        pos := pos + 1;
      }
      r := CheckClosed(tokens, count);
    }

    /** The scan for an unmatched opening bracket once the loop is done. */
    method CheckClosed(tokens: array<Token>, count: int) returns (r: int)
      requires toknext <= tokens.Length && count == toknext
      ensures r == Finish(Now(tokens))
    {
      var i := toknext - 1;
      while i >= 0
        invariant -1 <= i < toknext
        invariant forall k :: i < k < toknext ==> tokens[k].start == -1 || tokens[k].end != -1
      {
        if tokens[i].start != -1 && tokens[i].end == -1 {
          assert AnyOpen(Now(tokens));
          return PART;
        }
        i := i - 1;
      }
      return count;
    }
  }
}
