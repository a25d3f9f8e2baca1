/** Base64 text against the table and the grouping of RFC 4648 section 4. */
module Base64Table {
  import opened Bytes
  import opened Base64
  import opened Base64Codec

  // ----- the table -----

  const ROW_0 := "ABCDEFGHIJKLM"
  const ROW_1 := "NOPQRSTUVWXYZ"
  const ROW_2 := "abcdefghijklm"
  const ROW_3 := "nopqrstuvwxyz"
  const ROW_4 := "0123456789+/"

  /** The letters for 0 to 63, in order. */
  const ALPHABET := ROW_0 + ROW_1 + ROW_2 + ROW_3 + ROW_4

  lemma Row0(i: nat)
    requires i < 13
    ensures |ROW_0| == 13 && ROW_0[i] as int == 65 + i
  {
    var t := ROW_0;
    assert t[0] == 'A' && t[1] == 'B' && t[2] == 'C' && t[3] == 'D' && t[4] == 'E' && t[5] == 'F' && t[6] == 'G';
    assert t[7] == 'H' && t[8] == 'I' && t[9] == 'J' && t[10] == 'K' && t[11] == 'L' && t[12] == 'M';
  }

  lemma Row1(i: nat)
    requires i < 13
    ensures |ROW_1| == 13 && ROW_1[i] as int == 78 + i
  {
    var t := ROW_1;
    assert t[0] == 'N' && t[1] == 'O' && t[2] == 'P' && t[3] == 'Q' && t[4] == 'R' && t[5] == 'S' && t[6] == 'T';
    assert t[7] == 'U' && t[8] == 'V' && t[9] == 'W' && t[10] == 'X' && t[11] == 'Y' && t[12] == 'Z';
  }

  lemma Row2(i: nat)
    requires i < 13
    ensures |ROW_2| == 13 && ROW_2[i] as int == 97 + i
  {
    var t := ROW_2;
    assert t[0] == 'a' && t[1] == 'b' && t[2] == 'c' && t[3] == 'd' && t[4] == 'e' && t[5] == 'f' && t[6] == 'g';
    assert t[7] == 'h' && t[8] == 'i' && t[9] == 'j' && t[10] == 'k' && t[11] == 'l' && t[12] == 'm';
  }

  lemma Row3(i: nat)
    requires i < 13
    ensures |ROW_3| == 13 && ROW_3[i] as int == 110 + i
  {
    var t := ROW_3;
    assert t[0] == 'n' && t[1] == 'o' && t[2] == 'p' && t[3] == 'q' && t[4] == 'r' && t[5] == 's' && t[6] == 't';
    assert t[7] == 'u' && t[8] == 'v' && t[9] == 'w' && t[10] == 'x' && t[11] == 'y' && t[12] == 'z';
  }

  lemma Row4(i: nat)
    requires i < 12
    ensures |ROW_4| == 12 && ROW_4[i] as int == if i < 10 then 48 + i else if i == 10 then 43 else 47
  {
    var t := ROW_4;
    assert t[0] == '0' && t[1] == '1' && t[2] == '2' && t[3] == '3' && t[4] == '4' && t[5] == '5';
    assert t[6] == '6' && t[7] == '7' && t[8] == '8' && t[9] == '9' && t[10] == '+' && t[11] == '/';
  }

  lemma InRows(a: string, b: string, c: string, d: string, e: string, i: nat)
    requires |a| == |b| == |c| == |d| == 13 && |e| == 12 && i < 64
    ensures var t := a + b + c + d + e;
            && |t| == 64
            && t[i] == if i < 13 then a[i] else if i < 26 then b[i - 13] else if i < 39 then c[i - 26]
                       else if i < 52 then d[i - 39] else e[i - 52]
  {
  }

  /** The letters are those of the table. */
  lemma LetterIsTable(i: nat)
    requires i < 64
    ensures |ALPHABET| == 64 && Letter(i) == ALPHABET[i] as int
  {
    hide ROW_0, ROW_1, ROW_2, ROW_3, ROW_4;
    RowLengths();
    InRows(ROW_0, ROW_1, ROW_2, ROW_3, ROW_4, i);
    if i < 13 {
      Row0(i);
    } else if i < 26 {
      Row1(i - 13);
    } else if i < 39 {
      Row2(i - 26);
    } else if i < 52 {
      Row3(i - 39);
    } else {
      Row4(i - 52);
    }
  }

  lemma RowLengths()
    ensures |ROW_0| == |ROW_1| == |ROW_2| == |ROW_3| == 13 && |ROW_4| == 12
  {
  }

  // ----- the text of some data -----

  /** The `k`-th group of 24 bits; bytes that are missing at the end count as zero. */
  function Bits24(data: seq<byte>, k: nat): nat
    requires 3 * k < |data|
  {
    BigEndian([data[3 * k], if 3 * k + 1 < |data| then data[3 * k + 1] else 0, if 3 * k + 2 < |data| then data[3 * k + 2] else 0])
  }

  /** The four characters of a group: its four sextets, the first one highest, as letters; where no bit of
      the data goes into a sextet, the character '='. */
  predicate IsGroup(t: seq<byte>, bits: nat, bytes: nat)
    requires |t| == 4 && bits < 0x100_0000
  {
    && SextetIs(t[0], bits / 64 / 64 / 64) && SextetIs(t[1], bits / 64 / 64 % 64)
    && (if bytes >= 2 then SextetIs(t[2], bits / 64 % 64) else t[2] == '=' as int)
    && (if bytes >= 3 then SextetIs(t[3], bits % 64) else t[3] == '=' as int)
  }

  predicate SextetIs(c: byte, i: nat) {
    i < 64 && |ALPHABET| == 64 && c == ALPHABET[i] as int
  }

  lemma GroupIsLetters(a: byte, b: byte, c: byte, bytes: nat)
    ensures var l, bits := Letters(a, b, c), BigEndian([a, b, c]);
            bits < 0x100_0000 && IsGroup([l[0], l[1], if bytes >= 2 then l[2] else 0x3D, if bytes >= 3 then l[3] else 0x3D], bits, bytes)
  {
    hide SextetIs, BigEndian, Letter, IsGroup;
    ShortBigEndian([a, b, c]);
    SixBits(a, b, c);
    var l := Letters(a, b, c);
    LetterIs(a / 4);
    LetterIs(a % 4 * 16 + b / 16);
    LetterIs(b % 16 * 4 + c / 64);
    LetterIs(c % 64);
    GroupOf(l, a / 4, a % 4 * 16 + b / 16, b % 16 * 4 + c / 64, c % 64, bytes);
  }

  lemma GroupOf(l: seq<byte>, p: nat, q: nat, r: nat, t: nat, bytes: nat)
    requires |l| == 4 && p < 64 && q < 64 && r < 64 && t < 64
    requires SextetIs(l[0], p) && SextetIs(l[1], q) && SextetIs(l[2], r) && SextetIs(l[3], t)
    ensures IsGroup([l[0], l[1], if bytes >= 2 then l[2] else 0x3D, if bytes >= 3 then l[3] else 0x3D],
                    ((p * 64 + q) * 64 + r) * 64 + t, bytes)
  {
    hide SextetIs;
    var u := ((p * 64 + q) * 64 + r) * 64 + t;
    assert u / 64 == (p * 64 + q) * 64 + r && u / 64 / 64 == p * 64 + q && u / 64 / 64 / 64 == p;
  }

  lemma LetterIs(i: nat)
    requires i < 64
    ensures SextetIs(Letter(i), i)
  {
    LetterIsTable(i);
  }

  lemma SixBits(a: byte, b: byte, c: byte)
    ensures a as int * 0x1_0000 + b as int * 0x100 + c as int
         == ((a / 4 * 64 + (a % 4 * 16 + b / 16)) * 64 + (b % 16 * 4 + c / 64)) * 64 + c % 64
  {
  }

  /** The encoding is the groups of the data, one behind the other. */
  lemma {:induction false} EncodedGroup(data: seq<byte>, k: nat)
    requires 3 * k < |data|
    ensures Bits24(data, k) < 0x100_0000 && 4 * k + 4 <= |Encode(data)| == 4 * ((|data| + 2) / 3)
    ensures IsGroup(Encode(data)[4 * k..4 * k + 4], Bits24(data, k), |data| - 3 * k)
    decreases k
  {
    hide Letters, BigEndian, IsGroup;
    if k > 0 {
      var rest := data[3..];
      EncodedGroup(rest, k - 1);
      assert Bits24(data, k) == Bits24(rest, k - 1);
      assert Encode(data)[4 * k..4 * k + 4] == Encode(rest)[4 * (k - 1)..4 * (k - 1) + 4];
    } else {
      var b, c := if 1 < |data| then data[1] else 0, if 2 < |data| then data[2] else 0;
      var l := Letters(data[0], b, c);
      GroupIsLetters(data[0], b, c, |data|);
      assert Encode(data)[0..4] == [l[0], l[1], if |data| >= 2 then l[2] else 0x3D, if |data| >= 3 then l[3] else 0x3D];
    }
  }

  // ----- the data of some text -----

  /** What a character counts for: its place in the table, and 0 for '=' and all that is not in it. */
  lemma ValueIsPlace(c: byte)
    ensures (exists i: nat :: SextetIs(c, i)) <==> IsLetter(c)
    ensures forall i: nat :: SextetIs(c, i) ==> Value(c) == i
    ensures !IsLetter(c) ==> Value(c) == 0
  {
    if IsLetter(c) {
      SextetLetter(c);
      LetterIsTable(Sextet(c));
      assert SextetIs(c, Sextet(c));
    }
    forall i: nat | SextetIs(c, i) ensures Value(c) == i && IsLetter(c) {
      LetterIsTable(i);
      LetterSextet(i);
    }
  }

  /** The decoded bytes of a group of four characters are its 24 bits, for any text. */
  lemma DecodedGroup(s: seq<byte>, k: nat)
    requires |s| % 4 == 0 && 4 * k < |s|
    ensures 3 * k + 3 <= |DecodeAll(s)| == |s| / 4 * 3
    ensures BigEndian(DecodeAll(s)[3 * k..3 * k + 3])
         == ((Value(s[4 * k]) * 64 + Value(s[4 * k + 1])) * 64 + Value(s[4 * k + 2])) * 64 + Value(s[4 * k + 3])
  {
    hide Value, DecodeAll, BigEndian, Octets;
    GroupAt(s, k);
    var p, q, r, t := Value(s[4 * k]), Value(s[4 * k + 1]), Value(s[4 * k + 2]), Value(s[4 * k + 3]);
    var o := DecodeAll(s)[3 * k..3 * k + 3];
    ShortBigEndian(o);
    assert o[0] == Octets(p, q, r, t)[0] && o[1] == Octets(p, q, r, t)[1] && o[2] == Octets(p, q, r, t)[2];
    JoinBits(p, q, r, t);
  }

  lemma JoinBits(p: int, q: int, r: int, t: int)
    requires 0 <= p < 64 && 0 <= q < 64 && 0 <= r < 64 && 0 <= t < 64
    ensures var o := Octets(p, q, r, t);
            o[0] as int * 0x1_0000 + o[1] as int * 0x100 + o[2] == ((p * 64 + q) * 64 + r) * 64 + t
  {
  }
}
