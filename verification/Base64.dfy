/** Base64 as the local-control code encodes and decodes it (RFC 4648 section 4). */
module Base64 {
  import opened Bytes

  const PAD: byte := 0x3D

  // ----- the alphabet -----

  /** The encoding table: A-Z, a-z, 0-9, '+', '/'. */
  function Letter(i: int): (c: byte)
    requires 0 <= i < 64
  {
    if i < 26 then 0x41 + i
    else if i < 52 then 0x61 + (i - 26)
    else if i < 62 then 0x30 + (i - 52)
    else if i == 62 then 0x2B else 0x2F
  }

  predicate IsLetter(c: byte) {
    0x41 <= c <= 0x5A || 0x61 <= c <= 0x7A || 0x30 <= c <= 0x39 || c == 0x2B || c == 0x2F
  }

  /** The inverse table; every byte outside the alphabet maps to 0. */
  function Sextet(c: byte): (i: int)
    ensures 0 <= i < 64
  {
    if 0x41 <= c <= 0x5A then c - 0x41
    else if 0x61 <= c <= 0x7A then c - 0x61 + 26
    else if 0x30 <= c <= 0x39 then c - 0x30 + 52
    else if c == 0x2B then 62
    else if c == 0x2F then 63
    else 0
  }

  lemma LetterSextet(i: int)
    requires 0 <= i < 64
    ensures Sextet(Letter(i)) == i && IsLetter(Letter(i)) && Letter(i) != PAD
  {
  }

  lemma SextetLetter(c: byte)
    requires IsLetter(c)
    ensures Letter(Sextet(c)) == c
  {
  }

  // ----- groups (RFC 4648 section 4) -----

  /** The four letters of three bytes. */
  function Letters(a: byte, b: byte, c: byte): (r: seq<byte>)
    ensures |r| == 4
  {
    [Letter(a / 4), Letter(a % 4 * 16 + b / 16), Letter(b % 16 * 4 + c / 64), Letter(c % 64)]
  }

  /** The value the decoder takes for one character: padding counts as zero. */
  function Value(c: byte): (i: int)
    ensures 0 <= i < 64
  {
    if c == PAD then 0 else Sextet(c)
  }

  /** The three bytes of four sextets. */
  function Octets(p: int, q: int, r: int, s: int): (o: seq<byte>)
    requires 0 <= p < 64 && 0 <= q < 64 && 0 <= r < 64 && 0 <= s < 64
    ensures |o| == 3
  {
    [p * 4 + q / 16, q % 16 * 16 + r / 4, r % 4 * 64 + s]
  }

  function Encode(data: seq<byte>): (s: seq<byte>)
    ensures |s| == 4 * ((|data| + 2) / 3)
    decreases |data|
  {
    if data == [] then []
    else if |data| == 1 then Letters(data[0], 0, 0)[..2] + [PAD, PAD]
    else if |data| == 2 then Letters(data[0], data[1], 0)[..3] + [PAD]
    else Letters(data[0], data[1], data[2]) + Encode(data[3..])
  }

  /** All the decoded groups, padding included. */
  function DecodeAll(s: seq<byte>): (d: seq<byte>)
    requires |s| % 4 == 0
    ensures |d| == |s| / 4 * 3
    decreases |s|
  {
    if s == [] then []
    else Octets(Value(s[0]), Value(s[1]), Value(s[2]), Value(s[3])) + DecodeAll(s[4..])
  }

  /** The announced length: one byte less for each of the last two characters that is padding. */
  function DecodedLength(s: seq<byte>): (n: nat)
    requires |s| % 4 == 0 && s != []
    ensures n <= |s| / 4 * 3
  {
    |s| / 4 * 3 - (if s[|s| - 1] == PAD then 1 else 0) - (if s[|s| - 2] == PAD then 1 else 0)
  }

  function Decode(s: seq<byte>): seq<byte>
    requires |s| % 4 == 0 && s != []
  {
    DecodeAll(s)[..DecodedLength(s)]
  }

  // ----- inverses -----

  lemma OctetsOfLetters(a: byte, b: byte, c: byte)
    ensures var l := Letters(a, b, c);
            && Value(l[0]) == a / 4 && Value(l[1]) == a % 4 * 16 + b / 16
            && Value(l[2]) == b % 16 * 4 + c / 64 && Value(l[3]) == c % 64
            && Octets(Value(l[0]), Value(l[1]), Value(l[2]), Value(l[3])) == [a, b, c]
            && (forall i :: 0 <= i < 4 ==> IsLetter(l[i]) && l[i] != PAD)
  {
    hide Letter, Sextet, IsLetter;
    LetterSextet(a / 4);
    LetterSextet(a % 4 * 16 + b / 16);
    LetterSextet(b % 16 * 4 + c / 64);
    LetterSextet(c % 64);
    OctetsOfSextets(a, b, c);
  }

  lemma OctetsOfSextets(a: byte, b: byte, c: byte)
    ensures Octets(a / 4, a % 4 * 16 + b / 16, b % 16 * 4 + c / 64, c % 64) == [a, b, c]
  {
  }

  lemma EncodeOneGroup(data: seq<byte>, b: byte, c: byte)
    requires 1 <= |data| <= 3 && b == (if |data| > 1 then data[1] else 0) && c == if |data| > 2 then data[2] else 0
    ensures var l := Letters(data[0], b, c);
            Encode(data) == [l[0], l[1], if |data| > 1 then l[2] else PAD, if |data| > 2 then l[3] else PAD]
  {
    hide Letters;
    if |data| == 3 { assert data[3..] == []; }
  }

  /** Decoding group by group, with the announced length. */
  lemma DecodeUnfold(s: seq<byte>)
    requires |s| % 4 == 0 && |s| > 4
    ensures Decode(s) == Octets(Value(s[0]), Value(s[1]), Value(s[2]), Value(s[3])) + Decode(s[4..])
  {
    hide Octets, Value;
    assert DecodedLength(s) == 3 + DecodedLength(s[4..]);
  }

  lemma DecodeEncodeShort(data: seq<byte>)
    requires 1 <= |data| <= 3
    ensures Decode(Encode(data)) == data
  {
    hide Letter, Sextet, IsLetter, Octets, Value, Letters, Encode, DecodeAll, Decode;
    var b, c := if |data| > 1 then data[1] else 0, if |data| > 2 then data[2] else 0;
    OctetsOfLetters(data[0], b, c);
    ValueOfPad();
    EncodeOneGroup(data, b, c);
    DecodeShort(Encode(data), |data|);
    assert [data[0], b, c][..|data|] == data;
  }

  /** One group, cut to its announced length. */
  lemma DecodeShort(s: seq<byte>, n: nat)
    requires |s| == 4 && 1 <= n <= 3
    requires (n == 3 <==> s[3] != PAD) && (n == 1 <==> s[2] == PAD) && (n < 3 ==> s[3] == PAD)
    ensures Decode(s) == Octets(Value(s[0]), Value(s[1]), Value(s[2]), Value(s[3]))[..n]
  {
    hide Octets, Value, DecodeAll;
    DecodeOneGroup(s);
  }

  lemma DecodeOneGroup(s: seq<byte>)
    requires |s| == 4
    ensures DecodeAll(s) == Octets(Value(s[0]), Value(s[1]), Value(s[2]), Value(s[3]))
  {
    assert s[4..] == [];
  }

  lemma ValueOfPad()
    ensures Value(PAD) == 0
  {
  }

  lemma EncodeUnfold(data: seq<byte>)
    requires |data| > 2
    ensures Encode(data) == Letters(data[0], data[1], data[2]) + Encode(data[3..])
  {
  }

  /** Decoding the encoding of any non-empty data gives the data, with its exact length. */
  lemma {:induction false} DecodeEncode(data: seq<byte>)
    requires data != []
    ensures Decode(Encode(data)) == data
    decreases |data|
  {
    hide Letter, Sextet, IsLetter, Octets, Value, Letters, Decode, Encode;
    if |data| <= 3 {
      DecodeEncodeShort(data);
    } else {
      var s, l := Encode(data), Letters(data[0], data[1], data[2]);
      OctetsOfLetters(data[0], data[1], data[2]);
      EncodeUnfold(data);
      assert s[4..] == Encode(data[3..]);
      DecodeEncode(data[3..]);
      DecodeUnfold(s);
      assert data == [data[0], data[1], data[2]] + data[3..];
    }
  }

  /** Canonical text (RFC 4648 section 3.5): whole groups of letters; only the last group may be padded,
      and the bits its letters carry beyond the data are zero. */
  predicate Canonical(s: seq<byte>)
    decreases |s|
  {
    |s| >= 4 &&
    if |s| == 4 then CanonicalLast(s[0], s[1], s[2], s[3])
    else IsLetter(s[0]) && IsLetter(s[1]) && IsLetter(s[2]) && IsLetter(s[3]) && Canonical(s[4..])
  }

  predicate CanonicalLast(p: byte, q: byte, r: byte, t: byte) {
    IsLetter(p) && IsLetter(q) &&
    if t != PAD then IsLetter(r) && IsLetter(t)
    else if r != PAD then IsLetter(r) && Sextet(r) % 4 == 0
    else Sextet(q) % 16 == 0
  }

  lemma {:induction false} EncodeIsCanonical(data: seq<byte>)
    requires data != []
    ensures Canonical(Encode(data))
    decreases |data|
  {
    var b, c := if |data| > 1 then data[1] else 0, if |data| > 2 then data[2] else 0;
    OctetsOfLetters(data[0], b, c);
    if |data| > 2 {
      var s := Encode(data);
      assert s[4..] == Encode(data[3..]);
      if |data| > 3 { EncodeIsCanonical(data[3..]); }
    } else {
      LetterSextet(data[0] % 4 * 16);
    }
  }

  lemma LettersOfOctets(p: byte, q: byte, r: byte, t: byte)
    requires IsLetter(p) && IsLetter(q) && IsLetter(r) && IsLetter(t)
    ensures var o := Octets(Value(p), Value(q), Value(r), Value(t)); Letters(o[0], o[1], o[2]) == [p, q, r, t]
  {
    SextetLetter(p);
    SextetLetter(q);
    SextetLetter(r);
    SextetLetter(t);
    SextetsOfOctets(Value(p), Value(q), Value(r), Value(t));
  }

  lemma SextetsOfOctets(p: int, q: int, r: int, s: int)
    requires 0 <= p < 64 && 0 <= q < 64 && 0 <= r < 64 && 0 <= s < 64
    ensures var o := Octets(p, q, r, s);
            && o[0] / 4 == p && o[0] % 4 * 16 + o[1] / 16 == q
            && o[1] % 16 * 4 + o[2] / 64 == r && o[2] % 64 == s
  {
  }

  /** Encoding the decoding of canonical text gives the text. */
  lemma {:induction false} EncodeDecodeCanonical(s: seq<byte>)
    requires |s| % 4 == 0 && Canonical(s)
    ensures Encode(Decode(s)) == s
    decreases |s|
  {
    hide Letter, Sextet, IsLetter, CanonicalLast, Decode, Octets, Value, Letters;
    if |s| == 4 {
      EncodeDecodeLast(s[0], s[1], s[2], s[3]);
      assert s == [s[0], s[1], s[2], s[3]];
    } else {
      var o, t := Octets(Value(s[0]), Value(s[1]), Value(s[2]), Value(s[3])), s[4..];
      EncodeDecodeCanonical(t);
      LettersOfOctets(s[0], s[1], s[2], s[3]);
      DecodeUnfold(s);
      DecodeNotEmpty(t);
      assert Decode(s)[3..] == Decode(t) && Decode(s)[..3] == o;
      assert s == [s[0], s[1], s[2], s[3]] + t;
    }
  }

  lemma DecodeNotEmpty(s: seq<byte>)
    requires |s| % 4 == 0 && s != []
    ensures Decode(s) != []
  {
  }

  lemma EncodeDecodeLast(p: byte, q: byte, r: byte, t: byte)
    requires CanonicalLast(p, q, r, t)
    ensures Encode(Decode([p, q, r, t])) == [p, q, r, t]
  {
    hide Letter, Sextet, IsLetter, Value, Octets, Letters, Encode, Decode;
    var n := if t != PAD then 3 else if r != PAD then 2 else 1;
    var o := Octets(Value(p), Value(q), Value(r), Value(t));
    LastValues(p, q, r, t);
    DecodeShort([p, q, r, t], n);
    SextetsOfOctets(Value(p), Value(q), Value(r), Value(t));
    UnusedBits(Value(p), Value(q), Value(r), Value(t), n);
    LettersAre(o[0], o[1], o[2]);
    EncodeOneGroup(o[..n], o[1], o[2]);
  }

  lemma LettersAre(a: byte, b: byte, c: byte)
    ensures Letters(a, b, c) == [Letter(a / 4), Letter(a % 4 * 16 + b / 16), Letter(b % 16 * 4 + c / 64), Letter(c % 64)]
  {
  }

  /** The values of a canonical last group, and the letters they stand for. */
  lemma LastValues(p: byte, q: byte, r: byte, t: byte)
    requires CanonicalLast(p, q, r, t)
    ensures Letter(Value(p)) == p && Letter(Value(q)) == q
    ensures t != PAD ==> r != PAD && Letter(Value(t)) == t
    ensures r != PAD ==> Letter(Value(r)) == r
    ensures t == PAD ==> Value(t) == 0 && if r != PAD then Value(r) % 4 == 0 else Value(r) == 0 && Value(q) % 16 == 0
  {
    SextetLetter(p);
    SextetLetter(q);
    if r != PAD { SextetLetter(r); }
    if t != PAD { SextetLetter(t); }
  }

  lemma UnusedBits(p: int, q: int, r: int, s: int, n: nat)
    requires 0 <= p < 64 && 0 <= q < 64 && 0 <= r < 64 && 0 <= s < 64 && 1 <= n <= 3
    requires n < 3 ==> s == 0 && r % 4 == 0
    requires n < 2 ==> r == 0 && q % 16 == 0
    ensures var o := Octets(p, q, r, s); (n < 3 ==> o[2] == 0) && (n < 2 ==> o[1] == 0)
  {
  }

  /** Of all texts of whole groups exactly the canonical ones come back from decoding and encoding. */
  lemma EncodeDecodeExactly(s: seq<byte>)
    requires |s| % 4 == 0 && s != []
    ensures Encode(Decode(s)) == s <==> Canonical(s)
  {
    if Canonical(s) {
      EncodeDecodeCanonical(s);
    } else {
      DecodeNotEmpty(s);
      EncodeIsCanonical(Decode(s));
    }
  }
}
