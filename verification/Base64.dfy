/** Base64 over a 64-letter alphabet and its inverse table (src/base64.c). */
module Base64 {
  import opened Tables

  // A character of the encoded text.
  type Letter = c: nat | c < 256

  const PADDING: Letter := 61   // =
  const LETTER_A: Letter := 65
  const NOT_A_LETTER: Letter := 0xff

  datatype Maps = Maps(encode: seq<Letter>, decode: seq<Letter>)

  predicate Shaped(m: Maps)
  {
    |m.encode| == 64 && |m.decode| == 256
  }

  /** The two tables are inverse, and `=` is not a letter but `A` is. */
  ghost predicate Inverse(m: Maps)
  {
    && Shaped(m)
    && (forall i :: 0 <= i < 64 ==> m.decode[m.encode[i]] == i && m.encode[i] != PADDING)
    && m.decode[LETTER_A] != NOT_A_LETTER
  }

  ghost predicate IsAlphabet(letters: seq<Letter>)
  {
    && |letters| == 64
    && (forall i, j :: 0 <= i < j < 64 ==> letters[i] != letters[j])
    && PADDING !in letters && LETTER_A in letters
  }

  /** The alphabet of table 1 in section 4 of RFC 4648. */
  function Rfc4648(): (letters: seq<Letter>)
    ensures |letters| == 64
  {
    seq(64, i requires 0 <= i < 64 =>
      if i < 26 then 65 + i else if i < 52 then 71 + i else if i < 62 then i - 4 else if i == 62 then 43 else 47)
  }

  lemma Rfc4648IsAlphabet()
    ensures IsAlphabet(Rfc4648())
  {
    assert Rfc4648()[0] == LETTER_A;
  }

  /** Entry `n` is empty or names a letter among the first `i` that is `n`. */
  predicate Names(letters: seq<Letter>, i: nat, n: Letter, entry: Letter)
    requires i <= |letters| <= 64
  {
    entry == NOT_A_LETTER || (entry < i && letters[entry] == n)
  }

  /** `base64_init_maps` */
  method InitMaps(letters: seq<Letter>) returns (m: Maps)
    requires |letters| == 64
    ensures Shaped(m) && m.encode == letters
    ensures forall n :: 0 <= n < 256 ==> Names(letters, 64, n, m.decode[n])
    ensures forall i :: 0 <= i < 64 ==> m.decode[letters[i]] != NOT_A_LETTER
    ensures IsAlphabet(letters) ==> Inverse(m)
  {
    var decode: seq<Letter> := seq(256, _ => NOT_A_LETTER);
    var i := 0;
    while i < 64
      invariant 0 <= i <= 64 && |decode| == 256
      invariant forall n :: 0 <= n < 256 ==> Names(letters, i, n, decode[n])
      invariant forall j :: 0 <= j < i ==> decode[letters[j]] != NOT_A_LETTER
    {
      decode := decode[letters[i] := i];
      i := i + 1;
    }
    m := Maps(letters, decode);
    if IsAlphabet(letters) {
      NamesInvert(m);
    }
  }

  lemma NamesInvert(m: Maps)
    requires Shaped(m) && IsAlphabet(m.encode)
    requires forall n :: 0 <= n < 256 ==> Names(m.encode, 64, n, m.decode[n])
    requires forall i :: 0 <= i < 64 ==> m.decode[m.encode[i]] != NOT_A_LETTER
    ensures Inverse(m)
  {
    forall i | 0 <= i < 64 ensures m.decode[m.encode[i]] == i && m.encode[i] != PADDING {
      assert Names(m.encode, 64, m.encode[i], m.decode[m.encode[i]]);
    }
    var k :| 0 <= k < 64 && m.encode[k] == LETTER_A;
  }

  function Sixbit(m: Maps, s: bv8): Letter
    requires Shaped(m) && s < 64
  {
    m.encode[s as nat]
  }

  // Three bytes as four 6-bit values, and back.
  function Top6(a: bv8): (r: bv8) ensures r < 64 { (a & 0xfc) >> 2 }
  function Mid26(a: bv8, b: bv8): (r: bv8) ensures r < 64 { ((a & 0x3) << 4) | ((b & 0xf0) >> 4) }
  function Mid42(b: bv8, c: bv8): (r: bv8) ensures r < 64 { ((c & 0xc0) >> 6) | ((b & 0xf) << 2) }
  function Low6(c: bv8): (r: bv8) ensures r < 64 { c & 0x3f }
  function Byte1(p: bv8, q: bv8): bv8 { (p << 2) | (q >> 4) }
  function Byte2(q: bv8, r: bv8): bv8 { ((q & 0xf) << 4) | (r >> 2) }
  function Byte3(r: bv8, s: bv8): bv8 { ((r & 0x3) << 6) | s }

  lemma Repacks(a: bv8, b: bv8, c: bv8)
    ensures Byte1(Top6(a), Mid26(a, b)) == a
    ensures Byte2(Mid26(a, b), Mid42(b, c)) == b
    ensures Byte3(Mid42(b, c), Low6(c)) == c
  {
  }

  function EncodeTriplet(m: Maps, a: bv8, b: bv8, c: bv8): (r: seq<Letter>)
    requires Shaped(m)
    ensures |r| == 4
  {
    [Sixbit(m, Top6(a)), Sixbit(m, Mid26(a, b)), Sixbit(m, Mid42(b, c)), Sixbit(m, Low6(c))]
  }

  /** The last one or two bytes, zero-extended; unused letters become `=`. */
  function EncodeTail(m: Maps, src: seq<bv8>): (r: seq<Letter>)
    requires Shaped(m) && 0 < |src| < 3
    ensures |r| == 4
  {
    var t := EncodeTriplet(m, src[0], if |src| == 2 then src[1] else 0, 0);
    if |src| == 1 then [t[0], t[1], PADDING, PADDING] else [t[0], t[1], t[2], PADDING]
  }

  function Encode(m: Maps, src: seq<bv8>): (r: seq<Letter>)
    requires Shaped(m)
    ensures |r| == EncodedLength(|src|)
  {
    if |src| >= 3 then EncodeTriplet(m, src[0], src[1], src[2]) + Encode(m, src[3..])
    else if src != [] then EncodeTail(m, src)
    else []
  }

  function EncodedLength(n: nat): nat
  {
    (n + 2) / 3 * 4
  }

  function DecodedLength(n: nat): nat
  {
    (n + 3) / 4 * 3
  }

  /** `sixbit_from_b64` */
  function FromLetter(m: Maps, c: Letter): Option<bv8>
    requires Shaped(m)
  {
    if m.decode[c] == NOT_A_LETTER then None else Some(m.decode[c] as bv8)
  }

  function DecodeQuartet(m: Maps, s: seq<Letter>): (r: Option<seq<bv8>>)
    requires Shaped(m) && |s| == 4
    ensures r.Some? ==> |r.value| == 3
  {
    var a, b, c, d := FromLetter(m, s[0]), FromLetter(m, s[1]), FromLetter(m, s[2]), FromLetter(m, s[3]);
    if a.None? || b.None? || c.None? || d.None? then None
    else Some([Byte1(a.value, b.value), Byte2(b.value, c.value), Byte3(c.value, d.value)])
  }

  function Repeated(c: Letter, n: nat): (r: seq<Letter>)
    ensures |r| == n && forall i :: 0 <= i < n ==> r[i] == c
  {
    seq(n, _ => c)
  }

  function Unpadded(s: seq<Letter>): (r: seq<Letter>)
    ensures |r| <= |s|
  {
    if s != [] && s[|s| - 1] == PADDING then Unpadded(s[..|s| - 1]) else s
  }

  /** The last quartet, padded or not. One lone letter is malformed. */
  function DecodeTail(m: Maps, s: seq<Letter>): (r: Option<seq<bv8>>)
    requires Shaped(m) && |s| <= 4
    ensures r.Some? ==> |r.value| <= 3
  {
    var u := Unpadded(s);
    if u == [] then Some([])
    else if |u| == 1 then None
    else
      match DecodeQuartet(m, u + Repeated(LETTER_A, 4 - |u|))
      case None => None
      case Some(bytes) => Some(bytes[..|u| - 1])
  }

  function Prepend(bytes: seq<bv8>, rest: Option<seq<bv8>>): (r: Option<seq<bv8>>)
    ensures r.Some? <==> rest.Some?
    ensures r.Some? ==> r.value == bytes + rest.value
  {
    match rest case None => None case Some(b) => Some(bytes + b)
  }

  function Decode(m: Maps, s: seq<Letter>): (r: Option<seq<bv8>>)
    requires Shaped(m)
    ensures r.Some? ==> |r.value| <= DecodedLength(|s|)
  {
    if |s| > 4 then
      match DecodeQuartet(m, s[..4])
      case None => None
      case Some(bytes) =>
        Prepend(bytes, Decode(m, s[4..]))
    else DecodeTail(m, s)
  }

  // ---- which bits go where ----

  /** Three bytes as one word, the first one highest. */
  function Joined(a: bv8, b: bv8, c: bv8): bv24
  {
    ((a as bv24) << 16) | ((b as bv24) << 8) | (c as bv24)
  }

  /** The four 6-bit values are those of that word, highest first. */
  lemma SixesAreBits(a: bv8, b: bv8, c: bv8)
    ensures Top6(a) as bv24 == (Joined(a, b, c) >> 18) & 63
    ensures Mid26(a, b) as bv24 == (Joined(a, b, c) >> 12) & 63
    ensures Mid42(b, c) as bv24 == (Joined(a, b, c) >> 6) & 63
    ensures Low6(c) as bv24 == (Joined(a, b, c) >> 0) & 63
  {
  }

  /** Six bits of a word, from bit `shift` on. */
  function Six(w: bv24, shift: nat): (n: nat)
    requires shift <= 18
    ensures n < 64
  {
    ((w >> shift) & 63) as nat
  }

  lemma SixbitIsSix(m: Maps, s: bv8, w: bv24, shift: nat)
    requires Shaped(m) && shift <= 18 && s < 64 && s as bv24 == (w >> shift) & 63
    ensures Sixbit(m, s) == m.encode[Six(w, shift)]
  {
    assert s as nat == ((w >> shift) & 63) as nat;
  }

  /** So three bytes are encoded as section 4 of RFC 4648 has it: by the letters of their
      24 bits, six at a time. */
  lemma TripletIsRfc4648(m: Maps, a: bv8, b: bv8, c: bv8)
    requires Shaped(m)
    ensures var w := Joined(a, b, c);
      EncodeTriplet(m, a, b, c) == [m.encode[Six(w, 18)], m.encode[Six(w, 12)], m.encode[Six(w, 6)], m.encode[Six(w, 0)]]
  {
    hide Joined, Top6, Mid26, Mid42, Low6, Sixbit, Six;
    var w := Joined(a, b, c);
    SixesAreBits(a, b, c);
    SixbitIsSix(m, Top6(a), w, 18);
    SixbitIsSix(m, Mid26(a, b), w, 12);
    SixbitIsSix(m, Mid42(b, c), w, 6);
    SixbitIsSix(m, Low6(c), w, 0);
  }

  /** And the last one or two bytes by the letters that hold them, the bits beyond them
      zero, and "=" for the letters that hold none. */
  lemma TailIsRfc4648(m: Maps, a: bv8, b: bv8)
    requires Shaped(m)
    ensures EncodeTail(m, [a]) == EncodeTriplet(m, a, 0, 0)[..2] + [61, 61]
    ensures EncodeTail(m, [a, b]) == EncodeTriplet(m, a, b, 0)[..3] + [61]
  {
    hide EncodeTriplet;
  }

  // ---- decode after encode ----

  lemma SixbitDecodes(m: Maps, s: bv8)
    requires Inverse(m) && s < 64
    ensures FromLetter(m, Sixbit(m, s)) == Some(s) && Sixbit(m, s) != PADDING
  {
    assert (s as nat) as bv8 == s;
  }

  lemma TripletDecodes(m: Maps, a: bv8, b: bv8, c: bv8)
    requires Inverse(m)
    ensures DecodeQuartet(m, EncodeTriplet(m, a, b, c)) == Some([a, b, c])
    ensures PADDING !in EncodeTriplet(m, a, b, c)
  {
    hide Inverse, FromLetter, Sixbit, Top6, Mid26, Mid42, Low6, Byte1, Byte2, Byte3;
    SixbitDecodes(m, Top6(a));
    SixbitDecodes(m, Mid26(a, b));
    SixbitDecodes(m, Mid42(b, c));
    SixbitDecodes(m, Low6(c));
    Repacks(a, b, c);
  }

  /** `base64_decode` inverts `base64_encode` on every byte string. */
  lemma {:induction false} DecodeEncode(m: Maps, src: seq<bv8>)
    requires Inverse(m)
    ensures Decode(m, Encode(m, src)) == Some(src)
    decreases |src|
  {
    assert Shaped(m);
    hide EncodeTriplet, DecodeQuartet, Inverse;
    if |src| > 3 {
      DecodeEncode(m, src[3..]);
      TripletDecodes(m, src[0], src[1], src[2]);
      DecodeSplits(m, EncodeTriplet(m, src[0], src[1], src[2]), Encode(m, src[3..]));
      assert src == [src[0], src[1], src[2]] + src[3..];
    } else if |src| == 3 {
      assert src[3..] == [];
      WholeTailDecodes(m, src[0], src[1], src[2]);
      assert src == [src[0], src[1], src[2]];
    } else if src != [] {
      TailDecodes(m, src);
    }
  }

  lemma DecodeSplits(m: Maps, head: seq<Letter>, rest: seq<Letter>)
    requires Shaped(m) && |head| == 4 && rest != [] && DecodeQuartet(m, head).Some? && Decode(m, rest).Some?
    ensures Decode(m, head + rest) == Some(DecodeQuartet(m, head).value + Decode(m, rest).value)
  {
    assert (head + rest)[..4] == head && (head + rest)[4..] == rest;
  }

  lemma WholeTailDecodes(m: Maps, a: bv8, b: bv8, c: bv8)
    requires Inverse(m)
    ensures DecodeTail(m, EncodeTriplet(m, a, b, c)) == Some([a, b, c])
    ensures EncodeTriplet(m, a, b, c) + [] == EncodeTriplet(m, a, b, c)
  {
    var t := EncodeTriplet(m, a, b, c);
    TripletDecodes(m, a, b, c);
    hide Inverse, EncodeTriplet, DecodeQuartet;
    assert t[3] in t;
    assert Unpadded(t) == t && t + Repeated(LETTER_A, 0) == t;
    assert [a, b, c][..3] == [a, b, c];
  }

  lemma TailDecodes(m: Maps, src: seq<bv8>)
    requires Inverse(m) && 0 < |src| < 3
    ensures DecodeTail(m, EncodeTail(m, src)) == Some(src)
  {
    var a, b := src[0], if |src| == 2 then src[1] else 0;
    var t := EncodeTriplet(m, a, b, 0);
    TripletDecodes(m, a, b, 0);
    hide Inverse, EncodeTriplet, DecodeQuartet;
    var u := if |src| == 1 then t[..2] else t[..3];
    assert u[|u| - 1] in t;
    UnpaddedTail(u, 4 - |u|);
    assert EncodeTail(m, src) == u + Repeated(PADDING, 4 - |u|);
    var q := u + Repeated(LETTER_A, 4 - |u|);
    QuartetStarts(m, a, b, q);
    assert DecodeQuartet(m, q).value[..|u| - 1] == src;
  }

  /** The bytes that the first letters determine, whatever fills up the quartet. */
  lemma QuartetStarts(m: Maps, a: bv8, b: bv8, q: seq<Letter>)
    requires Inverse(m) && |q| == 4
    requires var t := EncodeTriplet(m, a, b, 0); q[..2] == t[..2] && (q[2] == t[2] || q[2] == LETTER_A) && q[3] == LETTER_A
    ensures var r := DecodeQuartet(m, q);
      r.Some? && r.value[0] == a && (q[2] == EncodeTriplet(m, a, b, 0)[2] ==> r.value[1] == b)
  {
    var t := EncodeTriplet(m, a, b, 0);
    assert q[0] == q[..2][0] && q[1] == q[..2][1] && t[0] == t[..2][0] && t[1] == t[..2][1];
    assert FromLetter(m, LETTER_A).Some?;
    hide Inverse, FromLetter, Sixbit, Top6, Mid26, Mid42, Low6, Byte1, Byte2, Byte3;
    SixbitDecodes(m, Top6(a));
    SixbitDecodes(m, Mid26(a, b));
    SixbitDecodes(m, Mid42(b, 0));
    Repacks(a, b, 0);
  }

  lemma {:induction false} UnpaddedTail(u: seq<Letter>, k: nat)
    requires u != [] && u[|u| - 1] != PADDING
    ensures Unpadded(u + Repeated(PADDING, k)) == u
    decreases k
  {
    if k == 0 {
      assert u + Repeated(PADDING, 0) == u;
    } else {
      var s := u + Repeated(PADDING, k);
      assert s[..|s| - 1] == u + Repeated(PADDING, k - 1);
      UnpaddedTail(u, k - 1);
    }
  }

  // ---- the loops ----

  /** `memcpy` of four letters or three bytes, and the closing `memset`. */
  method Store<T>(dest: array<T>, at: nat, data: seq<T>)
    requires at + |data| <= dest.Length
    modifies dest
    ensures dest[..] == old(dest[..at]) + data + old(dest[at + |data|..])
  {
    forall i | 0 <= i < |data| {
      dest[at + i] := data[i];
    }
  }

  lemma Stored<T>(was: seq<T>, now: seq<T>, at: nat, data: seq<T>)
    requires at + |data| <= |was| && now == was[..at] + data + was[at + |data|..]
    ensures |now| == |was| && now[..at + |data|] == was[..at] + data
  {
  }

  /** `base64_encode_using_maps` */
  method EncodeInto(m: Maps, dest: array<Letter>, src: seq<bv8>) returns (n: int)
    requires Shaped(m)
    modifies dest
    ensures n == if dest.Length < EncodedLength(|src|) then -1 else EncodedLength(|src|)
    ensures dest[..] == if n < 0 then old(dest[..]) else Encode(m, src) + Repeated(0, dest.Length - n)
  {
    hide EncodeTriplet, EncodeTail;
    if dest.Length < EncodedLength(|src|) {
      return -1;
    }
    var s, d := 0, 0;
    while |src| - s >= 3
      invariant 0 <= s <= |src| && d + EncodedLength(|src| - s) == EncodedLength(|src|)
      invariant dest[..d] + Encode(m, src[s..]) == Encode(m, src)
      decreases |src| - s
    {
      ghost var was := dest[..];
      var t := EncodeTriplet(m, src[s], src[s + 1], src[s + 2]);
      Store(dest, d, t);
      Stored(was, dest[..], d, t);
      assert src[s..][3..] == src[s + 3..];
      assert was[..d] + (t + Encode(m, src[s + 3..])) == (was[..d] + t) + Encode(m, src[s + 3..]);
      s, d := s + 3, d + 4;
    }
    ghost var was := dest[..];
    if s < |src| {
      var t := EncodeTail(m, src[s..]);
      Store(dest, d, t);
      Stored(was, dest[..], d, t);
      d := d + 4;
    }
    assert dest[..d] == Encode(m, src);
    Store(dest, d, Repeated(0, dest.Length - d));
    n := d;
  }

  lemma DecodeUnfolds(m: Maps, s: seq<Letter>)
    requires Shaped(m)
    ensures |s| > 4 ==>
      && DecodedLength(|s|) == 3 + DecodedLength(|s| - 4)
      && Decode(m, s) == match DecodeQuartet(m, s[..4]) case None => None case Some(bytes) => Prepend(bytes, Decode(m, s[4..]))
    ensures |s| <= 4 ==> Decode(m, s) == DecodeTail(m, s)
  {
  }

  /** `base64_decode_using_maps` */
  method DecodeInto(m: Maps, dest: array<bv8>, src: seq<Letter>) returns (n: int)
    requires Shaped(m)
    modifies dest
    ensures n == if dest.Length < DecodedLength(|src|) || Decode(m, src).None? then -1 else |Decode(m, src).value|
    ensures n >= 0 ==> dest[..n] == Decode(m, src).value
    ensures n >= 0 ==> forall i :: n <= i < dest.Length ==> dest[i] == 0
  {
    hide DecodeQuartet, DecodeTail, Decode, DecodedLength, Prepend;
    if dest.Length < DecodedLength(|src|) {
      return -1;
    }
    var i, d := 0, 0;
    assert src[0..] == src;
    PrependNothing(Decode(m, src));
    while |src| - i > 4
      invariant 0 <= i <= |src| && d + DecodedLength(|src| - i) == DecodedLength(|src|)
      invariant Decode(m, src) == Prepend(dest[..d], Decode(m, src[i..]))
      decreases |src| - i
    {
      ghost var was := dest[..];
      DecodeUnfolds(m, src[i..]);
      assert src[i..][..4] == src[i..i + 4] && src[i..][4..] == src[i + 4..];
      var q := DecodeQuartet(m, src[i..i + 4]);
      if q.None? {
        return -1;
      }
      Store(dest, d, q.value);
      Stored(was, dest[..], d, q.value);
      PrependTwice(was[..d], q.value, Decode(m, src[i + 4..]));
      i, d := i + 4, d + 3;
    }
    DecodeUnfolds(m, src[i..]);
    var more := DecodeTail(m, src[i..]);
    if more.None? {
      return -1;
    }
    StoreLast(dest, d, more.value);
    n := d + |more.value|;
  }

  method StoreLast(dest: array<bv8>, at: nat, data: seq<bv8>)
    requires at + |data| <= dest.Length
    modifies dest
    ensures dest[..at + |data|] == old(dest[..at]) + data
    ensures forall i :: at + |data| <= i < dest.Length ==> dest[i] == 0
  {
    ghost var was := dest[..];
    Store(dest, at, data);
    Stored(was, dest[..], at, data);
    ghost var done := dest[..];
    forall k | at + |data| <= k < dest.Length {
      dest[k] := 0;
    }
    assert dest[..at + |data|] == done[..at + |data|];
  }

  lemma PrependNothing(r: Option<seq<bv8>>)
    ensures Prepend([], r) == r
  {
    if r.Some? { assert [] + r.value == r.value; }
  }

  lemma PrependTwice(a: seq<bv8>, b: seq<bv8>, r: Option<seq<bv8>>)
    ensures Prepend(a + b, r) == Prepend(a, Prepend(b, r))
  {
    if r.Some? { assert a + b + r.value == a + (b + r.value); }
  }
}
