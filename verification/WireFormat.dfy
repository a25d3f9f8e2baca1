/** The bytes of a message as RFC 7252 prescribes them, and the proof that the printer writes exactly these
    and that the parser reads exactly these. */
module WireFormat {
  import opened Bytes
  import opened CoapWire
  import opened CoapMessage

  // ----- one option (RFC 7252 section 3.1) -----

  /** How many extension bytes follow for a nibble. */
  function ExtensionSize(nibble: int): nat {
    if nibble == 13 then 1 else if nibble == 14 then 2 else 0
  }

  /** The nibble with the extension bytes stands for the number. */
  predicate Stands(nibble: int, ext: seq<byte>, n: int) {
    || (0 <= nibble < 13 && ext == [] && n == nibble)
    || (nibble == 13 && |ext| == 1 && n == 13 + ext[0] as int)
    || (nibble == 14 && |ext| == 2 && n == 269 + BigEndian(ext))
  }

  /** The bytes are an option of this difference and value. */
  predicate IsOption(e: seq<byte>, delta: int, val: seq<byte>) {
    && e != []
    && var d, l := e[0] / 16, e[0] % 16;
    && |e| == 1 + ExtensionSize(d) + ExtensionSize(l) + |val|
    && Stands(d, e[1..1 + ExtensionSize(d)], delta)
    && Stands(l, e[1 + ExtensionSize(d)..1 + ExtensionSize(d) + ExtensionSize(l)], |val|)
    && e[|e| - |val|..] == val
  }

  lemma ExtensionStands(n: u16)
    ensures Stands(Nibble(n), Extension(n), n) && |Extension(n)| == ExtensionSize(Nibble(n))
  {
    ShortBigEndian(Extension(n));
  }

  lemma StandsAlone(nibble: int, ext: seq<byte>, n: u16)
    requires Stands(nibble, ext, n)
    ensures nibble == Nibble(n) && ext == Extension(n)
  {
    ShortBigEndian(ext);
  }

  lemma Pieces(e: seq<byte>, a: byte, x: seq<byte>, y: seq<byte>, v: seq<byte>)
    ensures e == [a] + x + y + v
       <==> && |e| == 1 + |x| + |y| + |v|
            && e[0] == a && e[1..1 + |x|] == x && e[1 + |x|..1 + |x| + |y|] == y && e[|e| - |v|..] == v
  {
    if e == [a] + x + y + v {
      assert e[1..1 + |x|] == x;
      assert e[1 + |x|..1 + |x| + |y|] == y;
      assert e[|e| - |v|..] == v;
    }
    if |e| == 1 + |x| + |y| + |v| {
      assert e == [e[0]] + e[1..1 + |x|] + e[1 + |x|..1 + |x| + |y|] + e[|e| - |v|..];
    }
  }

  /** The format has one text for each option, and the printer writes it. */
  lemma OptionExactly(e: seq<byte>, o: MsgOption)
    ensures IsOption(e, o.num, o.val) <==> e == EncodeOption(o)
  {
    hide Nibble, Extension, Stands, ExtensionSize;
    var n1, n2 := Nibble(o.num), Nibble(|o.val|);
    Pieces(e, n1 * 16 + n2, Extension(o.num), Extension(|o.val|), o.val);
    ExtensionStands(o.num);
    ExtensionStands(|o.val|);
    NibblesOfByte(n1, n2);
    if IsOption(e, o.num, o.val) {
      var d, l := e[0] / 16, e[0] % 16;
      StandsAlone(d, e[1..1 + ExtensionSize(d)], o.num);
      StandsAlone(l, e[1 + ExtensionSize(d)..1 + ExtensionSize(d) + ExtensionSize(l)], |o.val|);
    }
  }

  /** The bytes are these options, one behind the other. */
  predicate AreOptions(e: seq<byte>, os: seq<MsgOption>)
    decreases |os|
  {
    if os == [] then e == []
    else exists n :: 0 <= n <= |e| && IsOption(e[..n], os[0].num, os[0].val) && AreOptions(e[n..], os[1..])
  }

  lemma {:induction false} OptionsExactly(e: seq<byte>, os: seq<MsgOption>)
    ensures AreOptions(e, os) <==> e == EncodeOptions(os)
    decreases |os|
  {
    hide IsOption, EncodeOption;
    if os != [] {
      var first, rest := EncodeOption(os[0]), EncodeOptions(os[1..]);
      if e == EncodeOptions(os) {
        var n := |first|;
        assert e[..n] == first && e[n..] == rest;
        OptionExactly(e[..n], os[0]);
        OptionsExactly(e[n..], os[1..]);
      }
      if AreOptions(e, os) {
        var n :| 0 <= n <= |e| && IsOption(e[..n], os[0].num, os[0].val) && AreOptions(e[n..], os[1..]);
        OptionExactly(e[..n], os[0]);
        OptionsExactly(e[n..], os[1..]);
        assert e == e[..n] + e[n..];
      }
    }
  }

  /** The nibble 15, which the format reserves, is read as the number 15. */
  lemma FifteenIsTaken(mem: seq<byte>, pos: nat, prev: u16)
    requires pos + 1 < |mem| && mem[pos] == 0xF0
    ensures DecodeOption(mem, pos, prev) == Some((MsgOption((prev + 15) % 0x1_0000, []), 1))
  {
    assert mem[pos + 1..pos + 1] == [];
  }

  // ----- a message (RFC 7252 section 3) -----

  /** The first four bytes. */
  predicate IsHeader(e: seq<byte>, h: Header, tokenlen: int) {
    && |e| == 4
    && e[0] / 64 == h.version && e[0] / 16 % 4 == h.mtype && e[0] % 16 == tokenlen
    && e[1] == h.code && BigEndian(e[2..4]) == h.msgid
  }

  /** Header, token, options, and, where there is a payload, the byte 0xFF and the payload. */
  predicate IsPacket(e: seq<byte>, p: Packet) {
    var start, end := 4 + |p.token|, |e| - |p.payload| - (if p.payload == [] then 0 else 1);
    && start <= end
    && IsHeader(e[..4], p.header, |p.token|)
    && e[4..start] == p.token
    && AreOptions(e[start..end], p.options)
    && (p.payload != [] ==> e[end] == 0xFF && e[end + 1..] == p.payload)
  }

  lemma HeaderExactly(e: seq<byte>, h: Header, tokenlen: nat)
    requires tokenlen < 16
    ensures IsHeader(e, h, tokenlen) <==> e == EncodeHeader(h, tokenlen)
  {
    if |e| == 4 { ShortBigEndian(e[2..4]); }
    var f := EncodeHeader(h, tokenlen);
    ShortBigEndian(f[2..4]);
    if IsHeader(e, h, tokenlen) {
      assert e == [e[0], e[1], e[2], e[3]];
    }
  }

  /** The format has one text for each message, and it is what the printer writes: so the theorems about
      printing and parsing are about messages in this format. */
  lemma PacketExactly(e: seq<byte>, p: Packet)
    requires |p.token| <= 8
    ensures IsPacket(e, p) <==> e == Encode(p)
  {
    hide EncodeHeader, EncodeOptions, IsHeader, AreOptions;
    var hd, opts := EncodeHeader(p.header, |p.token|), EncodeOptions(p.options);
    var start, end := 4 + |p.token|, |e| - |p.payload| - (if p.payload == [] then 0 else 1);
    if e == Encode(p) {
      assert e[..4] == hd && e[4..start] == p.token && e[start..end] == opts;
      HeaderExactly(e[..4], p.header, |p.token|);
      OptionsExactly(e[start..end], p.options);
      if p.payload != [] { assert e[end] == 0xFF && e[end + 1..] == p.payload; }
    }
    if IsPacket(e, p) {
      HeaderExactly(e[..4], p.header, |p.token|);
      OptionsExactly(e[start..end], p.options);
      assert e == e[..4] + e[4..start] + e[start..end] + e[end..];
      if p.payload != [] { assert e[end..] == [0xFF] + e[end + 1..]; }
    }
  }

  /** The parser reads every message in the format: its header and token, its options with summed numbers,
      and the payload behind the byte 0xFF. */
  lemma FormatIsRead(e: seq<byte>, p: Packet, mem: seq<byte>)
    requires IsPacket(e, p) && |p.token| <= 8 && |p.options| <= 12 && |p.payload| < 0x1_0000
    requires At(mem, 0, e) && (|e| < |mem| || p.payload != [])
    ensures |e| >= 4 && Decode(mem, |e|).Some?
    ensures var r := Decode(mem, |e|).value;
            && r.header == p.header && r.token == p.token && r.options == Absolutes(p.options, 0)
            && (p.payload != [] ==> r.payloadPos == |e| - |p.payload| && r.payloadLen == |p.payload| && At(mem, r.payloadPos, p.payload))
            && (p.payload == [] && mem[|e|] != 0xFF ==> r.payloadLen == 0)
  {
    hide Encode, Decode, IsPacket, Absolutes, At;
    PacketExactly(e, p);
    DecodeEncoded(p, mem);
    PayloadReadBack(p, mem);
  }

  /** A parse fails only for what would leave the arrays of the C code: a token of more than 8 bytes, a token
      or an option outside the memory, more than twelve options, or no byte to look at behind them.  A
      datagram that ends inside its token or its last option is parsed. */
  lemma ParseFailsExactly(mem: seq<byte>, datalen: nat)
    requires 4 <= datalen <= |mem|
    ensures Decode(mem, datalen).None?
       <==> var t := mem[0] % 16;
            || t > 8 || 4 + t > |mem|
            || DecodeOptions(mem, 4 + t, datalen, 0, 12).None?
            || DecodeOptions(mem, 4 + t, datalen, 0, 12).value.1 >= |mem|
  {
    hide DecodeOptions;
  }

  /** In any parse: what stands behind the options is a payload exactly if it starts with the byte 0xFF. */
  lemma PayloadBehindMarker(mem: seq<byte>, datalen: nat)
    requires 4 <= datalen <= |mem| && Decode(mem, datalen).Some?
    ensures 4 + mem[0] % 16 <= |mem|
    ensures var stop, r := DecodeOptions(mem, 4 + mem[0] % 16, datalen, 0, 12), Decode(mem, datalen).value;
            && stop.Some? && stop.value.1 < |mem|
            && if mem[stop.value.1] == 0xFF then r.payloadPos == stop.value.1 + 1 && r.payloadLen == (datalen - stop.value.1 - 1) % 0x1_0000
               else r.payloadLen == 0
  {
    hide DecodeOptions, Decode;
    DecodeStages(mem, datalen);
  }

  // ----- integer option values (RFC 7252 section 3.2) -----

  /** Integers are stored in network order in 0, 1, 2 or 4 bytes, and read in network order. */
  lemma UintIsBigEndian(v: u32, s: seq<byte>)
    ensures BigEndian(UintBytes(v)) == v
    ensures |UintBytes(v)| == if v == 0 then 0 else if v < 256 then 1 else if v < 65536 then 2 else 4
    ensures |s| <= 4 ==> UintValue(s) == BigEndian(s)
    ensures |s| > 4 ==> UintValue(s) == 0 && forall word :: ReadInto(word, s) == 0
  {
    ShortBigEndian(UintBytes(v));
    ShortBigEndian(s);
    UintRoundTrip(v);
  }
}
