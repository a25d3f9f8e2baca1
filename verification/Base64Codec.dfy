/** The encoder and decoder over byte buffers, with the inverse table that is built on first use. */
module Base64Codec {
  import opened Bytes
  import opened Base64

  datatype Status = Success | Fail

  /** All groups, with zeros for the bytes missing from the last one. */
  function EncodeRaw(data: seq<byte>): (s: seq<byte>)
    ensures |s| == 4 * ((|data| + 2) / 3)
    decreases |data|
  {
    if data == [] then []
    else
      var b := if |data| > 1 then data[1] else 0;
      var c := if |data| > 2 then data[2] else 0;
      Letters(data[0], b, c) + EncodeRaw(if |data| <= 3 then [] else data[3..])
  }

  function Missing(data: seq<byte>): nat {
    [0, 2, 1][|data| % 3]
  }

  lemma MissingSame(data: seq<byte>)
    ensures Missing(data) <= 2 && Missing(data) == (if |data| % 3 == 0 then 0 else 3 - |data| % 3)
    ensures |data| > 3 ==> Missing(data[3..]) == Missing(data)
  {
  }

  /** The encoding is the raw groups with padding written over the tail. */
  lemma {:induction false} EncodeFromRaw(data: seq<byte>)
    requires data != []
    ensures Missing(data) <= |EncodeRaw(data)|
    ensures Encode(data) == EncodeRaw(data)[..|EncodeRaw(data)| - Missing(data)] + seq(Missing(data), _ => PAD)
    decreases |data|
  {
    hide Letters, Missing;
    MissingSame(data);
    var raw := EncodeRaw(data);
    if |data| <= 3 {
      assert EncodeRaw([]) == [];
      var b, c := if |data| > 1 then data[1] else 0, if |data| > 2 then data[2] else 0;
      assert raw == Letters(data[0], b, c);
      if |data| == 3 { assert data[3..] == []; }
    } else {
      EncodeFromRaw(data[3..]);
      var t := EncodeRaw(data[3..]);
      var l := Letters(data[0], data[1], data[2]);
      assert raw == l + t;
      assert raw[..|raw| - Missing(data)] == l + t[..|t| - Missing(data)];
    }
  }

  lemma Digits64(p: int, q: int, r: int, s: int)
    requires 0 <= p < 64 && 0 <= q < 64 && 0 <= r < 64 && 0 <= s < 64
    ensures var t := p * 0x4_0000 + q * 0x1000 + r * 0x40 + s;
            t / 0x4_0000 == p && t / 0x1000 == p * 0x40 + q && t / 0x40 == p * 0x1000 + q * 0x40 + r
    ensures p % 64 == p && (p * 0x40 + q) % 64 == q && (p * 0x1000 + q * 0x40 + r) % 64 == r
    ensures (p * 0x4_0000 + q * 0x1000 + r * 0x40 + s) % 64 == s
  {
  }

  lemma Digits256(x: int, y: int, z: int)
    requires 0 <= x < 0x100 && 0 <= y < 0x100 && 0 <= z < 0x100
    ensures var t := x * 0x1_0000 + y * 0x100 + z; t / 0x1_0000 == x && t / 0x100 == x * 0x100 + y && t % 0x100 == z
    ensures x % 0x100 == x && (x * 0x100 + y) % 0x100 == y
  {
  }

  lemma TripleSextets(a: byte, b: byte, c: byte)
    ensures var t := a as int * 0x1_0000 + b as int * 0x100 + c as int;
            && t / 0x4_0000 % 64 == a / 4 && t / 0x1000 % 64 == a % 4 * 16 + b / 16
            && t / 0x40 % 64 == b % 16 * 4 + c / 64 && t % 64 == c % 64
  {
    SplitBytes(a / 4, a % 4, b / 16, b % 16, c / 64, c % 64);
  }

  lemma SplitBytes(a1: int, a0: int, b1: int, b0: int, c1: int, c0: int)
    requires 0 <= a1 < 64 && 0 <= a0 < 4 && 0 <= b1 < 16 && 0 <= b0 < 16 && 0 <= c1 < 4 && 0 <= c0 < 64
    ensures var t := (a1 * 4 + a0) * 0x1_0000 + (b1 * 16 + b0) * 0x100 + (c1 * 64 + c0);
            t / 0x4_0000 % 64 == a1 && t / 0x1000 % 64 == a0 * 16 + b1 && t / 0x40 % 64 == b0 * 4 + c1 && t % 64 == c0
  {
    Digits64(a1, a0 * 16 + b1, b0 * 4 + c1, c0);
  }

  lemma TripleOctets(p: int, q: int, r: int, s: int)
    requires 0 <= p < 64 && 0 <= q < 64 && 0 <= r < 64 && 0 <= s < 64
    ensures var t := p * 0x4_0000 + q * 0x1000 + r * 0x40 + s;
            && t / 0x1_0000 % 0x100 == Octets(p, q, r, s)[0]
            && t / 0x100 % 0x100 == Octets(p, q, r, s)[1]
            && t % 0x100 == Octets(p, q, r, s)[2]
  {
    JoinSextets(p, q / 16, q % 16, r / 4, r % 4, s);
  }

  lemma JoinSextets(p: int, q1: int, q0: int, r1: int, r0: int, s: int)
    requires 0 <= p < 64 && 0 <= q1 < 4 && 0 <= q0 < 16 && 0 <= r1 < 16 && 0 <= r0 < 4 && 0 <= s < 64
    ensures var t := p * 0x4_0000 + (q1 * 16 + q0) * 0x1000 + (r1 * 4 + r0) * 0x40 + s;
            t / 0x1_0000 % 0x100 == p * 4 + q1 && t / 0x100 % 0x100 == q0 * 16 + r1 && t % 0x100 == r0 * 64 + s
  {
    Digits256(p * 4 + q1, q0 * 16 + r1, r0 * 64 + s);
  }

  method PutFour(out: array<byte>, j: nat, a: byte, b: byte, c: byte)
    requires j + 4 <= out.Length
    modifies out
    ensures out[..] == old(out[..j]) + Letters(a, b, c) + old(out[j + 4..])
  {
    var triple := a as int * 0x1_0000 + b as int * 0x100 + c as int;
    TripleSextets(a, b, c);
    out[j] := Letter(triple / 0x4_0000 % 64);
    out[j + 1] := Letter(triple / 0x1000 % 64);
    out[j + 2] := Letter(triple / 0x40 % 64);
    out[j + 3] := Letter(triple % 64);
  }

  /** The groups of the first `i` bytes. */
  ghost predicate Rawed(data: seq<byte>, i: nat, done: seq<byte>) {
    i <= |data| && done + EncodeRaw(data[i..]) == EncodeRaw(data)
  }

  lemma RawStart(data: seq<byte>)
    ensures Rawed(data, 0, [])
  {
    assert data[0..] == data && [] + EncodeRaw(data) == EncodeRaw(data);
  }

  lemma RawStep(data: seq<byte>, i: nat, done: seq<byte>, a: byte, b: byte, c: byte)
    requires i < |data| && Rawed(data, i, done)
    requires a == data[i] && b == (if i + 1 < |data| then data[i + 1] else 0) && c == if i + 2 < |data| then data[i + 2] else 0
    ensures Rawed(data, if i + 3 <= |data| then i + 3 else |data|, done + Letters(a, b, c))
    ensures |done| + 4 <= |EncodeRaw(data)|
  {
    hide Letters, EncodeRaw;
    var k := if i + 3 <= |data| then i + 3 else |data|;
    RawUnfold(data, i, a, b, c);
    assert done + (Letters(a, b, c) + EncodeRaw(data[k..])) == done + Letters(a, b, c) + EncodeRaw(data[k..]);
  }

  lemma RawEnd(data: seq<byte>, done: seq<byte>)
    requires Rawed(data, |data|, done)
    ensures done == EncodeRaw(data)
  {
    assert data[|data|..] == [] && done + [] == done;
  }

  lemma RawUnfold(data: seq<byte>, i: nat, a: byte, b: byte, c: byte)
    requires i < |data|
    requires a == data[i] && b == (if i + 1 < |data| then data[i + 1] else 0) && c == if i + 2 < |data| then data[i + 2] else 0
    ensures var k := if i + 3 <= |data| then i + 3 else |data|;
            EncodeRaw(data[i..]) == Letters(a, b, c) + EncodeRaw(data[k..])
  {
    hide Letters;
    var rest, k := data[i..], if i + 3 <= |data| then i + 3 else |data|;
    assert data[k..] == if |rest| <= 3 then [] else rest[3..];
    assert rest[0] == a && (if |rest| > 1 then rest[1] else 0) == b && (if |rest| > 2 then rest[2] else 0) == c;
  }

  /** utils_base64encode.  The lengths are 32-bit numbers. */
  method Base64Encode(data: seq<byte>, outputLenMax: u32, out: array<byte>) returns (st: Status, outputLength: u32)
    requires |data| + 2 < 0x1_0000_0000 && 4 * ((|data| + 2) / 3) < 0x1_0000_0000
    requires outputLenMax as int <= out.Length
    modifies out
    ensures outputLength == |Encode(data)|
    ensures st == if outputLenMax < outputLength then Fail else Success
    ensures Wrote(old(out[..]), out[..], 0, if st == Success then Encode(data) else [])
  {
    hide Encode, EncodeRaw, Missing, Wrote;
    outputLength := 4 * ((|data| + 2) / 3);
    ghost var o0 := out[..];
    WroteNothing(o0, 0);
    if outputLenMax < outputLength {
      return Fail, outputLength;
    }
    PutGroups(data, out);
    if data == [] {
      WroteFront(o0, out[..], []);
      return Success, outputLength;
    }
    EncodeFromRaw(data);
    PutPadding(Missing(data), outputLength as int, out, EncodeRaw(data), o0);
    WroteFront(o0, out[..], Encode(data));
    return Success, outputLength;
  }

  /** The next byte, or zero at the end. */
  method NextOctet(data: seq<byte>, i: nat) returns (octet: byte, k: nat)
    requires i <= |data|
    ensures octet == (if i < |data| then data[i] else 0) && k == if i < |data| then i + 1 else i
  {
    if i < |data| {
      return data[i], i + 1;
    }
    return 0, i;
  }

  /** The group loop: three bytes at a time, zeros for the missing ones. */
  method PutGroups(data: seq<byte>, out: array<byte>)
    requires |EncodeRaw(data)| <= out.Length
    modifies out
    ensures out[..] == EncodeRaw(data) + old(out[..])[|EncodeRaw(data)|..]
  {
    hide Letters, EncodeRaw, Rawed;
    ghost var o0, done: seq<byte> := out[..], [];
    var i, j := 0, 0;
    RawStart(data);
    while i < |data|
      invariant i <= |data| && j == |done| <= out.Length
      invariant out[..] == done + o0[j..] && Rawed(data, i, done)
    {
      var octet_a, k := NextOctet(data, i);
      var octet_b, octet_c;
      octet_b, k := NextOctet(data, k);
      octet_c, k := NextOctet(data, k);
      RawStep(data, i, done, octet_a, octet_b, octet_c);
      PutFour(out, j, octet_a, octet_b, octet_c);
      assert (done + o0[j..])[..j] == done && (done + o0[j..])[j + 4..] == o0[j + 4..];
      done := done + Letters(octet_a, octet_b, octet_c);
      i, j := k, j + 4;
    }
    RawEnd(data, done);
  }

  /** The padding loop, from the end backwards. */
  method PutPadding(n: nat, len: nat, out: array<byte>, ghost raw: seq<byte>, ghost o0: seq<byte>)
    requires n <= len == |raw| <= out.Length == |o0| && out[..] == raw + o0[len..]
    modifies out
    ensures out[..] == raw[..len - n] + seq(n, _ => PAD) + o0[len..]
  {
    var m := 0;
    while m < n
      invariant m <= n
      invariant out[..] == raw[..len - m] + seq(m, _ => PAD) + o0[len..]
    {
      out[len - 1 - m] := PAD;
      m := m + 1;
    }
  }

  // ----- decoding -----

  class Decoder {
    const table: array<int>
    var signal: int

    /** Until the table is built it holds zeros, as static storage does. */
    ghost predicate Valid()
      reads this, table
    {
      && table.Length == 256
      && if signal == 0 then forall c :: 0 <= c < 256 ==> table[c] == 0
         else forall c: byte :: table[c] == Sextet(c)
    }

    constructor ()
      ensures Valid() && signal == 0 && fresh(table)
    {
      table := new int[256](_ => 0);
      signal := 0;
    }

    method BuildDecodingTable()
      requires Valid()
      modifies this`signal, table
      ensures Valid() && signal != 0
    {
      if signal != 0 {
        return;
      }
      var i := 0;
      while i < 64
        invariant 0 <= i <= 64
        invariant forall c: byte :: table[c] == if IsLetter(c) && Sextet(c) < i then Sextet(c) else 0
      {
        LetterSextet(i);
        forall c: byte | IsLetter(c) && Sextet(c) == i ensures c == Letter(i) { SextetLetter(c); }
        table[Letter(i)] := i;
        i := i + 1;
      }
      signal := 1;
    }

    /** utils_base64decode on non-empty input: an empty input makes the sources read before it. */
    method Base64Decode(data: seq<byte>, outputLenMax: u32, out: array<byte>) returns (st: Status, outputLength: u32)
      requires Valid() && 0 < |data| < 0x1_0000_0000 && outputLenMax as int <= out.Length
      modifies this`signal, table, out
      ensures Valid()
      ensures st == if |data| % 4 != 0 || (outputLenMax as int < DecodedLength(data)) then Fail else Success
      ensures |data| % 4 == 0 ==> outputLength as int == DecodedLength(data)
      ensures Wrote(old(out[..]), out[..], 0, if st == Success then Decode(data) else [])
    {
      hide Valid, Decode, DecodeAll, DecodedLength, Wrote;
      BuildDecodingTable();
      ghost var o0 := out[..];
      DecodedPrefix(data, o0);
      if |data| % 4 != 0 {
        return Fail, 0;
      }
      var n := |data| / 4 * 3;
      if data[|data| - 1] == PAD { n := n - 1; }
      if data[|data| - 2] == PAD { n := n - 1; }
      outputLength := n;
      if outputLenMax < outputLength {
        return Fail, outputLength;
      }
      GetGroups(data, n, out);
      WroteFront(o0, out[..], Decode(data));
      return Success, outputLength;
    }

    /** The group loop of the decoder: four characters at a time, `n` bytes in all. */
    method GetGroups(data: seq<byte>, n: nat, out: array<byte>)
      requires Valid() && signal != 0 && |data| % 4 == 0 && n <= |data| / 4 * 3 && n <= out.Length
      modifies out
      ensures Valid() && out[..] == DecodeAll(data)[..n] + old(out[..])[n..]
    {
      hide DecodeAll, Octets, Value;
      ghost var o0, all := out[..], DecodeAll(data);
      var k, j := 0, 0;
      while 4 * k < |data|
        invariant 4 * k <= |data| && Valid() && signal != 0
        invariant j == (if 3 * k <= n then 3 * k else n)
        invariant out[..] == all[..j] + o0[j..]
      {
        var i := 4 * k;
        var a, b := Character(data[i]), Character(data[i + 1]);
        var c, d := Character(data[i + 2]), Character(data[i + 3]);
        var triple := a * 0x4_0000 + b * 0x1000 + c * 0x40 + d;
        TripleOctets(a, b, c, d);
        GroupAt(data, k);
        j := PutIf(out, j, n, triple / 0x1_0000 % 0x100, all, o0);
        j := PutIf(out, j, n, triple / 0x100 % 0x100, all, o0);
        j := PutIf(out, j, n, triple % 0x100, all, o0);
        k := k + 1;
      }
    }

    /** One byte of a group, if the announced length still has room for it. */
    static method PutIf(out: array<byte>, j: nat, n: nat, v: byte, ghost all: seq<byte>, ghost o0: seq<byte>) returns (k: nat)
      requires j <= n <= |all| && n <= out.Length == |o0| && out[..] == all[..j] + o0[j..]
      requires j < n ==> all[j] == v
      modifies out
      ensures k == (if j < n then j + 1 else j) && out[..] == all[..k] + o0[k..]
    {
      k := j;
      if j < n {
        out[j] := v;
        k := j + 1;
      }
    }

    function Character(c: byte): (v: int)
      requires Valid() && signal != 0
      reads this, table
      ensures v == Value(c)
    {
      if c == PAD then 0 else table[c]
    }
  }

  /** The decoded bytes are the groups cut to the announced length. */
  lemma DecodedPrefix(data: seq<byte>, before: seq<byte>)
    requires |data| > 0
    ensures |data| % 4 == 0 ==>
              DecodedLength(data)
              == |data| / 4 * 3 - (if data[|data| - 1] == PAD then 1 else 0) - (if data[|data| - 2] == PAD then 1 else 0)
    ensures |data| % 4 == 0 ==> DecodedLength(data) <= |DecodeAll(data)| && Decode(data) == DecodeAll(data)[..DecodedLength(data)]
    ensures Wrote(before, before, 0, [])
  {
  }

  /** The k-th group of the decoded bytes. */
  lemma {:induction false} GroupAt(s: seq<byte>, k: nat)
    requires |s| % 4 == 0 && 4 * k < |s|
    ensures var o := Octets(Value(s[4 * k]), Value(s[4 * k + 1]), Value(s[4 * k + 2]), Value(s[4 * k + 3]));
            && DecodeAll(s)[3 * k] == o[0] && DecodeAll(s)[3 * k + 1] == o[1] && DecodeAll(s)[3 * k + 2] == o[2]
    decreases k
  {
    hide Octets, Value;
    if k > 0 {
      var head, t := Octets(Value(s[0]), Value(s[1]), Value(s[2]), Value(s[3])), DecodeAll(s[4..]);
      assert DecodeAll(s) == head + t;
      GroupAt(s[4..], k - 1);
      ShiftByGroup(s, head, t, k);
    }
  }

  lemma ShiftByGroup(s: seq<byte>, head: seq<byte>, t: seq<byte>, k: nat)
    requires k > 0 && 4 * k + 3 < |s| && |head| == 3 && 3 * k + 2 < 3 + |t|
    ensures var u, i := s[4..], 4 * (k - 1);
            u[i] == s[4 * k] && u[i + 1] == s[4 * k + 1] && u[i + 2] == s[4 * k + 2] && u[i + 3] == s[4 * k + 3]
    ensures var u, i := head + t, 3 * (k - 1);
            u[3 * k] == t[i] && u[3 * k + 1] == t[i + 1] && u[3 * k + 2] == t[i + 2]
  {
  }
}
