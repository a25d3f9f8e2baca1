/** The CoAP wire format as this SDK writes and reads it (RFC 7252 sections 3, 3.1 and 3.2).

    The builder stores option numbers as differences; the printer writes what is stored; the
    parser adds the differences up again.  `MsgOption.num` is therefore a difference on the
    sending side and an absolute number on the receiving side. */
module CoapWire {
  import opened Bytes

  const MAX_OPTIONS := 12
  const MAX_TOKEN := 8
  const MARKER: byte := 0xFF

  type OptionValue = s: seq<byte> | |s| < 0x1_0000
  datatype MsgOption = MsgOption(num: u16, val: OptionValue)

  type two_bits = x: int | 0 <= x < 4
  datatype Header = Header(version: two_bits, mtype: two_bits, code: byte, msgid: u16)

  /** A message to be sent; `options` hold differences. */
  datatype Packet = Packet(header: Header, token: seq<byte>, options: seq<MsgOption>, payload: seq<byte>)

  ghost predicate Sendable(p: Packet) {
    |p.token| <= MAX_TOKEN && |p.options| <= MAX_OPTIONS && |p.payload| < 0x1_0000
  }

  // ----- printing -----

  function Nibble(n: u16): (b: byte)
    ensures b < 15
  {
    if 269 <= n then 14 else if 13 <= n then 13 else n
  }

  function Extension(n: u16): seq<byte> {
    if 269 <= n then [(n - 269) / 0x100, (n - 269) % 0x100]
    else if 13 <= n then [n - 13]
    else []
  }

  /** No option starts with the payload marker. */
  function EncodeOption(o: MsgOption): (e: seq<byte>)
    ensures |e| > 0 && e[0] <= 0xEE
  {
    [Nibble(o.num) * 16 + Nibble(|o.val|)] + Extension(o.num) + Extension(|o.val|) + o.val
  }

  function EncodeOptions(os: seq<MsgOption>): seq<byte> {
    if os == [] then [] else EncodeOption(os[0]) + EncodeOptions(os[1..])
  }

  function EncodeHeader(h: Header, tokenlen: nat): (e: seq<byte>)
    requires tokenlen < 16
    ensures |e| == 4
  {
    [h.version * 64 + h.mtype * 16 + tokenlen, h.code, h.msgid / 0x100, h.msgid % 0x100]
  }

  function EncodePayload(payload: seq<byte>): seq<byte> {
    if payload == [] then [] else [MARKER] + payload
  }

  function Encode(p: Packet): seq<byte>
    requires |p.token| <= MAX_TOKEN
  {
    EncodeHeader(p.header, |p.token|) + p.token + EncodeOptions(p.options) + EncodePayload(p.payload)
  }

  lemma EncodeLength(p: Packet)
    requires |p.token| <= MAX_TOKEN
    ensures |Encode(p)| == 4 + |p.token| + |EncodeOptions(p.options)| + (if p.payload == [] then 0 else 1 + |p.payload|)
  {
  }

  lemma EncodeParts(p: Packet)
    requires |p.token| <= MAX_TOKEN
    ensures Encode(p) == EncodeHeader(p.header, |p.token|) + p.token + EncodeOptions(p.options) + EncodePayload(p.payload)
    ensures EncodePayload(p.payload) == if p.payload == [] then [] else [MARKER] + p.payload
  {
  }

  lemma {:induction false} EncodeOptionsAppend(os: seq<MsgOption>, o: MsgOption)
    ensures EncodeOptions(os + [o]) == EncodeOptions(os) + EncodeOption(o)
  {
    if os == [] {
      assert [o][1..] == [];
      assert EncodeOptions([o]) == EncodeOption(o) + EncodeOptions([]);
    } else {
      EncodeOptionsAppend(os[1..], o);
      assert (os + [o])[1..] == os[1..] + [o];
    }
  }

  // ----- parsing -----

  /** Two bytes in network order. */
  function Word(hi: byte, lo: byte): u16 {
    hi as int * 0x100 + lo as int
  }

  /** What the parser makes of one nibble with its extension bytes, read at `pos`: the value
      (not yet reduced to 16 bits) and the number of extension bytes.  The nibble 15 is taken
      literally.  None when a byte outside `mem` would be read. */
  function DecodeNibble(mem: seq<byte>, pos: nat, nibble: nat): Option<(nat, nat)> {
    if nibble == 13 then
      if pos < |mem| then Some((13 + mem[pos] as int, 1)) else None
    else if nibble == 14 then
      if pos + 1 < |mem| then Some((269 + Word(mem[pos], mem[pos + 1]), 2)) else None
    else Some((nibble, 0))
  }

  /** One option read at `pos`, with `prev` the number of the option before it: the option with
      its absolute number, and the number of bytes consumed. */
  function DecodeOption(mem: seq<byte>, pos: nat, prev: u16): (r: Option<(MsgOption, nat)>)
    ensures r.Some? ==> 1 <= r.value.1 <= |mem| - pos
  {
    if pos >= |mem| then None else
    match DecodeNibble(mem, pos + 1, mem[pos] / 16)
    case None => None
    case Some((delta, n1)) =>
      match DecodeNibble(mem, pos + 1 + n1, mem[pos] % 16)
      case None => None
      case Some((rawLen, n2)) =>
        var len := rawLen % 0x1_0000;
        var start := pos + 1 + n1 + n2;
        if start + len > |mem| then None
        else Some((MsgOption((prev + delta) % 0x1_0000, mem[start..start + len]), 1 + n1 + n2 + len))
  }

  /** The option loop from `pos` to `end` with `room` option slots left: the options and the
      position where the loop stopped.  None when the loop would leave `mem` or the slots. */
  function DecodeOptions(mem: seq<byte>, pos: nat, end: nat, prev: u16, room: nat): Option<(seq<MsgOption>, nat)>
    requires end <= |mem|
    decreases |mem| - pos
  {
    if pos >= end || mem[pos] == MARKER then Some(([], pos))
    else if room == 0 then None
    else match DecodeOption(mem, pos, prev)
      case None => None
      case Some((o, n)) =>
        match DecodeOptions(mem, pos + n, end, o.num, room - 1)
        case None => None
        case Some((os, stop)) => Some(([o] + os, stop))
  }

  /** A parsed message; `options` hold absolute numbers.  The payload is the C pointer and length:
      `payloadPos` is where it starts in the receive memory. */
  datatype Parsed = Parsed(header: Header, token: seq<byte>, options: seq<MsgOption>,
                           payloadPos: nat, payloadLen: u16)

  function DecodeHeader(mem: seq<byte>): Header
    requires |mem| >= 4
  {
    Header(mem[0] / 64, mem[0] / 16 % 4, mem[1], Word(mem[2], mem[3]))
  }

  /** The message put together when the option loop has stopped at `stop`. */
  function Assemble(mem: seq<byte>, datalen: nat, h: Header, token: seq<byte>, os: seq<MsgOption>, stop: nat): Parsed
    requires stop < |mem|
  {
    if mem[stop] == MARKER then Parsed(h, token, os, stop + 1, (datalen - stop - 1) % 0x1_0000)
    else Parsed(h, token, os, stop, 0)
  }

  /** The whole parser over the first `datalen` bytes of `mem`.  The parser looks at the byte
      `mem[datalen]` when the options run up to the end, and farther when token or last option run past it.
      None stands for input that makes the C code leave its buffers. */
  function Decode(mem: seq<byte>, datalen: nat): Option<Parsed>
    requires 4 <= datalen <= |mem|
  {
    var tokenlen := mem[0] % 16;
    if tokenlen > MAX_TOKEN || 4 + tokenlen > |mem| then None else
    match DecodeOptions(mem, 4 + tokenlen, datalen, 0, MAX_OPTIONS)
    case None => None
    case Some((os, stop)) =>
      if stop >= |mem| then None
      else Some(Assemble(mem, datalen, DecodeHeader(mem), mem[4..4 + tokenlen], os, stop))
  }

  /** The stages a parse that succeeds goes through. */
  lemma DecodeStages(mem: seq<byte>, datalen: nat)
    requires 4 <= datalen <= |mem| && Decode(mem, datalen).Some?
    ensures var tokenlen := mem[0] % 16;
            && tokenlen <= MAX_TOKEN && 4 + tokenlen <= |mem|
            && var r := DecodeOptions(mem, 4 + tokenlen, datalen, 0, MAX_OPTIONS);
            && r.Some? && 4 + tokenlen <= r.value.1 < |mem|
            && Decode(mem, datalen).value
            == Assemble(mem, datalen, DecodeHeader(mem), mem[4..4 + tokenlen], r.value.0, r.value.1)
  {
    DecodeOptionsForward(mem, 4 + mem[0] % 16, datalen, 0, MAX_OPTIONS);
  }

  lemma {:induction false} DecodeOptionsForward(mem: seq<byte>, pos: nat, end: nat, prev: u16, room: nat)
    requires end <= |mem|
    ensures var r := DecodeOptions(mem, pos, end, prev, room); r.Some? ==> pos <= r.value.1
    decreases |mem| - pos
  {
    if pos < end && mem[pos] != MARKER && room > 0 {
      var o := DecodeOption(mem, pos, prev);
      if o.Some? { DecodeOptionsForward(mem, pos + o.value.1, end, o.value.0.num, room - 1); }
    }
  }

  // ----- differences and absolute numbers -----

  /** The options as CoAPStrOption_add and CoAPUintOption_add store them: the predecessor is
      remembered in eight bits only. */
  function Deltas(added: seq<MsgOption>, prev: byte): (os: seq<MsgOption>)
    ensures |os| == |added|
  {
    if added == [] then []
    else [MsgOption((added[0].num - prev) % 0x1_0000, added[0].val)] + Deltas(added[1..], added[0].num % 0x100)
  }

  function LastByte(added: seq<MsgOption>, prev: byte): byte {
    if added == [] then prev else added[|added| - 1].num % 0x100
  }

  lemma {:induction false} DeltasAppend(added: seq<MsgOption>, o: MsgOption, prev: byte)
    ensures Deltas(added + [o], prev)
         == Deltas(added, prev) + [MsgOption((o.num - LastByte(added, prev)) % 0x1_0000, o.val)]
  {
    if added == [] {
      assert [o][1..] == [];
    } else {
      DeltasAppend(added[1..], o, added[0].num % 0x100);
      assert (added + [o])[1..] == added[1..] + [o];
    }
  }

  /** The options as the parser reports them. */
  function Absolutes(os: seq<MsgOption>, prev: u16): (r: seq<MsgOption>)
    ensures |r| == |os|
  {
    if os == [] then []
    else
      var n := (prev + os[0].num) % 0x1_0000;
      [MsgOption(n, os[0].val)] + Absolutes(os[1..], n)
  }

  /** Every number but the last fits the eight bits in which the builder remembers it. */
  predicate NarrowButLast(added: seq<MsgOption>) {
    forall i :: 0 <= i < |added| - 1 ==> added[i].num < 0x100
  }

  lemma {:induction false} NumbersSurvive(added: seq<MsgOption>, prev: u16)
    ensures Absolutes(Deltas(added, prev % 0x100), prev) == added
       <==> NarrowButLast(added) && (added == [] || prev < 0x100)
  {
    if added != [] {
      var ds := Deltas(added, prev % 0x100);
      var n := (prev + ds[0].num) % 0x1_0000;
      assert n == added[0].num <==> prev < 0x100 by {
        NumberSurvives(added[0].num, prev);
      }
      assert ds[1..] == Deltas(added[1..], added[0].num % 0x100);
      var rest := Absolutes(ds[1..], n);
      assert Absolutes(ds, prev) == [MsgOption(n, added[0].val)] + rest;
      assert added == [added[0]] + added[1..];
      NumbersSurvive(added[1..], added[0].num);
      if prev < 0x100 {
        assert n == added[0].num;
        assert Absolutes(ds, prev) == added <==> rest == added[1..];
        NarrowTail(added);
      } else {
        assert Absolutes(ds, prev)[0].num != added[0].num;
      }
    }
  }

  lemma NumberSurvives(num: u16, prev: u16)
    ensures (prev + (num - prev % 0x100) % 0x1_0000) % 0x1_0000 == num <==> prev < 0x100
  {
  }

  lemma NarrowTail(added: seq<MsgOption>)
    requires added != []
    ensures NarrowButLast(added)
       <==> NarrowButLast(added[1..]) && (added[1..] == [] || added[0].num < 0x100)
  {
    var tail := added[1..];
    if NarrowButLast(tail) && (tail == [] || added[0].num < 0x100) {
      forall i | 0 <= i < |added| - 1 ensures added[i].num < 0x100 {
        if i > 0 { assert tail[i - 1] == added[i]; }
      }
    }
    if NarrowButLast(added) {
      forall i | 0 <= i < |tail| - 1 ensures tail[i].num < 0x100 {
        assert tail[i] == added[i + 1];
      }
    }
  }

  // ----- the round trip -----

  lemma DecodeNibbleOfEncoded(mem: seq<byte>, pos: nat, n: u16)
    requires At(mem, pos, Extension(n))
    ensures DecodeNibble(mem, pos, Nibble(n)) == Some((n as nat, |Extension(n)|))
  {
    if 13 <= n { AtIndex(mem, pos, Extension(n), 0); }
    if 269 <= n { AtIndex(mem, pos, Extension(n), 1); }
  }

  lemma NibblesOfByte(hi: byte, lo: byte)
    requires hi < 16 && lo < 16
    ensures (hi * 16 + lo) / 16 == hi && (hi * 16 + lo) % 16 == lo
  {
  }

  /** Where the parts of a printed option lie. */
  lemma OptionLayout(mem: seq<byte>, pos: nat, o: MsgOption)
    requires At(mem, pos, EncodeOption(o))
    ensures pos < |mem| && mem[pos] == Nibble(o.num) * 16 + Nibble(|o.val|)
    ensures var n1, n2 := |Extension(o.num)|, |Extension(|o.val|)|;
            && |EncodeOption(o)| == 1 + n1 + n2 + |o.val|
            && At(mem, pos + 1, Extension(o.num))
            && At(mem, pos + 1 + n1, Extension(|o.val|))
            && At(mem, pos + 1 + n1 + n2, o.val)
  {
    var first := [Nibble(o.num) * 16 + Nibble(|o.val|)];
    var x1, x2 := Extension(o.num), Extension(|o.val|);
    AtSplit(mem, pos, first + x1 + x2, o.val);
    AtSplit(mem, pos, first + x1, x2);
    AtSplit(mem, pos, first, x1);
    AtIndex(mem, pos, first, 0);
  }

  lemma DecodeEncodedOption(mem: seq<byte>, pos: nat, o: MsgOption, prev: u16)
    requires At(mem, pos, EncodeOption(o))
    ensures DecodeOption(mem, pos, prev)
         == Some((MsgOption((prev + o.num) % 0x1_0000, o.val), |EncodeOption(o)|))
  {
    hide EncodeOption, DecodeOption, DecodeNibble, Extension, Nibble, At;
    OptionLayout(mem, pos, o);
    var n1, n2 := |Extension(o.num)|, |Extension(|o.val|)|;
    AtSlice(mem, pos + 1 + n1 + n2, o.val);
    NibblesOfByte(Nibble(o.num), Nibble(|o.val|));
    DecodeNibbleOfEncoded(mem, pos + 1, o.num);
    DecodeNibbleOfEncoded(mem, pos + 1 + n1, |o.val|);
    DecodeWholeOption(mem, pos, prev, o.num, n1, |o.val|, n2);
  }

  /** The option parser once both nibbles are known. */
  lemma DecodeWholeOption(mem: seq<byte>, pos: nat, prev: u16, delta: nat, n1: nat, rawLen: nat, n2: nat)
    requires pos < |mem|
    requires DecodeNibble(mem, pos + 1, mem[pos] / 16) == Some((delta, n1))
    requires DecodeNibble(mem, pos + 1 + n1, mem[pos] % 16) == Some((rawLen, n2))
    ensures DecodeOption(mem, pos, prev)
         == (var start, len := pos + 1 + n1 + n2, rawLen % 0x1_0000;
             if start + len > |mem| then None
             else Some((MsgOption((prev + delta) % 0x1_0000, mem[start..start + len]), 1 + n1 + n2 + len)))
  {
  }

  /** The option loop stops. */
  lemma DecodeOptionsEnd(mem: seq<byte>, pos: nat, end: nat, prev: u16, room: nat)
    requires end <= |mem| && (pos >= end || mem[pos] == MARKER)
    ensures DecodeOptions(mem, pos, end, prev, room) == Some(([], pos))
  {
  }

  /** One round of the option loop. */
  lemma DecodeOptionsStep(mem: seq<byte>, pos: nat, end: nat, prev: u16, room: nat,
                          o: MsgOption, n: nat, os: seq<MsgOption>, stop: nat)
    requires pos < end <= |mem| && mem[pos] != MARKER && room > 0
    requires DecodeOption(mem, pos, prev) == Some((o, n))
    requires DecodeOptions(mem, pos + n, end, o.num, room - 1) == Some((os, stop))
    ensures DecodeOptions(mem, pos, end, prev, room) == Some(([o] + os, stop))
  {
  }

  /** The printed options stand one behind the other from `pos` to `stop`. */
  ghost predicate OptionsAt(mem: seq<byte>, pos: nat, os: seq<MsgOption>, stop: nat)
    decreases |os|
  {
    if os == [] then pos == stop
    else At(mem, pos, EncodeOption(os[0])) && OptionsAt(mem, pos + |EncodeOption(os[0])|, os[1..], stop)
  }

  lemma {:induction false} OptionsLayout(mem: seq<byte>, pos: nat, os: seq<MsgOption>)
    requires At(mem, pos, EncodeOptions(os))
    ensures OptionsAt(mem, pos, os, pos + |EncodeOptions(os)|)
    decreases |os|
  {
    if os != [] {
      AtSplit(mem, pos, EncodeOption(os[0]), EncodeOptions(os[1..]));
      OptionsLayout(mem, pos + |EncodeOption(os[0])|, os[1..]);
    }
  }

  lemma FirstOptionReadBack(mem: seq<byte>, pos: nat, o: MsgOption, prev: u16)
    requires At(mem, pos, EncodeOption(o))
    ensures |EncodeOption(o)| > 0 && pos < |mem| && mem[pos] != MARKER
    ensures DecodeOption(mem, pos, prev)
         == Some((MsgOption((prev + o.num) % 0x1_0000, o.val), |EncodeOption(o)|))
  {
    DecodeEncodedOption(mem, pos, o, prev);
    AtIndex(mem, pos, EncodeOption(o), 0);
  }

  lemma {:induction false} OptionsAtForward(mem: seq<byte>, pos: nat, os: seq<MsgOption>, stop: nat)
    requires OptionsAt(mem, pos, os, stop)
    ensures pos <= stop && (os != [] ==> pos < stop)
    decreases |os|
  {
    if os != [] {
      OptionsAtForward(mem, pos + |EncodeOption(os[0])|, os[1..], stop);
    }
  }

  /** The loop consumes exactly the option bytes and stops at the marker or at the end. */
  lemma {:induction false} DecodeOptionsAt(mem: seq<byte>, pos: nat, end: nat, os: seq<MsgOption>, stop: nat, prev: u16, room: nat)
    requires OptionsAt(mem, pos, os, stop) && |os| <= room
    requires stop <= end <= |mem| && (stop < end ==> mem[stop] == MARKER)
    ensures DecodeOptions(mem, pos, end, prev, room) == Some((Absolutes(os, prev), stop))
    decreases |os|
  {
    hide DecodeOptions, DecodeOption, EncodeOption;
    if os == [] {
      DecodeOptionsEnd(mem, pos, end, prev, room);
    } else {
      var n, num := |EncodeOption(os[0])|, (prev + os[0].num) % 0x1_0000;
      OptionsAtForward(mem, pos, os, stop);
      FirstOptionReadBack(mem, pos, os[0], prev);
      DecodeOptionsAt(mem, pos + n, end, os[1..], stop, num, room - 1);
      DecodeOptionsStep(mem, pos, end, prev, room, MsgOption(num, os[0].val), n, Absolutes(os[1..], num), stop);
    }
  }

  lemma {:induction false} DecodeEncodedOptions(mem: seq<byte>, pos: nat, end: nat, os: seq<MsgOption>, prev: u16, room: nat)
    requires At(mem, pos, EncodeOptions(os)) && |os| <= room
    requires var stop := pos + |EncodeOptions(os)|;
             stop <= end <= |mem| && (stop < end ==> mem[stop] == MARKER)
    ensures DecodeOptions(mem, pos, end, prev, room)
         == Some((Absolutes(os, prev), pos + |EncodeOptions(os)|))
  {
    hide EncodeOptions, DecodeOptions, Absolutes, OptionsAt, At;
    OptionsLayout(mem, pos, os);
    DecodeOptionsAt(mem, pos, end, os, pos + |EncodeOptions(os)|, prev, room);
  }

  /** What the receiver reports of a packet laid out in `end` bytes: the option numbers are summed,
      the payload slice ends the message.  `following` is the byte behind the message in memory. */
  function Reported(p: Packet, end: nat, following: byte): Parsed
    requires Sendable(p) && end >= |p.payload|
  {
    var start, len := end - |p.payload|, |p.payload|;
    if p.payload == [] && following == MARKER then
      Parsed(p.header, p.token, Absolutes(p.options, 0), end + 1, 0xFFFF)
    else
      Parsed(p.header, p.token, Absolutes(p.options, 0), start, len)
  }

  /** The byte at this position, if there is one. */
  function ByteAt(mem: seq<byte>, pos: nat): byte {
    if pos < |mem| then mem[pos] else 0
  }

  /** A message without payload needs a byte behind it for the parser to look at; one with payload may fill
      the memory. */
  lemma DecodeEncoded(p: Packet, mem: seq<byte>)
    requires Sendable(p) && At(mem, 0, Encode(p)) && (|Encode(p)| < |mem| || p.payload != [])
    ensures 4 + |p.payload| <= |Encode(p)| <= |mem|
    ensures Decode(mem, |Encode(p)|) == Some(Reported(p, |Encode(p)|, ByteAt(mem, |Encode(p)|)))
  {
    hide Decode, DecodeOptions, At, Encode, EncodeOptions, Reported;
    AtInside(mem, Encode(p));
    var end, stop := |Encode(p)|, 4 + |p.token| + |EncodeOptions(p.options)|;
    assert if p.payload == [] then end == stop else stop + 1 + |p.payload| == end && stop < |mem| && mem[stop] == MARKER by {
      PayloadReadBack(p, mem);
    }
    assert mem[0] % 16 == |p.token| && mem[4..4 + |p.token|] == p.token && DecodeHeader(mem) == p.header by {
      HeaderReadBack(p, mem);
    }
    assert DecodeOptions(mem, 4 + |p.token|, end, 0, MAX_OPTIONS) == Some((Absolutes(p.options, 0), stop)) by {
      OptionsReadBack(p, mem);
    }
    DecodeReported(p, mem, end, stop);
  }

  lemma DecodeReported(p: Packet, mem: seq<byte>, end: nat, stop: nat)
    requires Sendable(p) && 4 + |p.token| <= stop <= end <= |mem| && stop < |mem|
    requires mem[0] % 16 == |p.token| && mem[4..4 + |p.token|] == p.token && DecodeHeader(mem) == p.header
    requires DecodeOptions(mem, 4 + |p.token|, end, 0, MAX_OPTIONS) == Some((Absolutes(p.options, 0), stop))
    requires if p.payload == [] then end == stop else stop + 1 + |p.payload| == end && mem[stop] == MARKER
    ensures Decode(mem, end) == Some(Reported(p, end, ByteAt(mem, end)))
  {
    hide Decode, DecodeOptions, Reported, Absolutes, Assemble, DecodeHeader, ByteAt;
    DecodeWhole(mem, end, |p.token|, Absolutes(p.options, 0), stop);
    AssembledAsReported(p, mem, end, stop);
  }

  lemma AssembledAsReported(p: Packet, mem: seq<byte>, end: nat, stop: nat)
    requires Sendable(p) && stop <= end && stop < |mem|
    requires if p.payload == [] then end == stop else stop + 1 + |p.payload| == end && mem[stop] == MARKER
    ensures Assemble(mem, end, p.header, p.token, Absolutes(p.options, 0), stop) == Reported(p, end, ByteAt(mem, end))
  {
    hide Absolutes;
  }

  lemma HeaderReadBack(p: Packet, mem: seq<byte>)
    requires Sendable(p) && At(mem, 0, Encode(p))
    ensures 4 + |p.token| <= |mem| && mem[0] % 16 == |p.token| && mem[4..4 + |p.token|] == p.token
    ensures DecodeHeader(mem) == p.header
  {
    hide Encode, EncodeHeader, EncodeOptions, At, DecodeHeader;
    PacketLayout(p, mem);
    HeaderBytes(p.header, |p.token|, mem);
    AtSlice(mem, 4, p.token);
  }

  lemma OptionsReadBack(p: Packet, mem: seq<byte>)
    requires Sendable(p) && At(mem, 0, Encode(p))
    ensures DecodeOptions(mem, 4 + |p.token|, |Encode(p)|, 0, MAX_OPTIONS)
         == Some((Absolutes(p.options, 0), 4 + |p.token| + |EncodeOptions(p.options)|))
  {
    hide Encode, EncodeHeader, EncodeOptions, At, DecodeOptions, Absolutes;
    AtInside(mem, Encode(p));
    PacketLayout(p, mem);
    DecodeEncodedOptions(mem, 4 + |p.token|, |Encode(p)|, p.options, 0, MAX_OPTIONS);
  }

  lemma PayloadReadBack(p: Packet, mem: seq<byte>)
    requires Sendable(p) && At(mem, 0, Encode(p))
    ensures var end, stop := |Encode(p)|, 4 + |p.token| + |EncodeOptions(p.options)|;
            && 4 + |p.payload| <= end
            && At(mem, end - |p.payload|, p.payload)
            && (p.payload == [] ==> end == stop)
            && (p.payload != [] ==> stop + 1 + |p.payload| == end && stop < |mem| && mem[stop] == MARKER)
  {
    hide Encode, EncodeHeader, EncodeOptions;
    PacketLayout(p, mem);
  }

  lemma DecodeWhole(mem: seq<byte>, end: nat, tokenlen: nat, os: seq<MsgOption>, stop: nat)
    requires 4 + tokenlen <= stop <= end <= |mem| && stop < |mem| && tokenlen <= MAX_TOKEN && mem[0] % 16 == tokenlen
    requires DecodeOptions(mem, 4 + tokenlen, end, 0, MAX_OPTIONS) == Some((os, stop))
    ensures Decode(mem, end) == Some(Assemble(mem, end, DecodeHeader(mem), mem[4..4 + tokenlen], os, stop))
  {
  }

  /** The parts of `p` lie one behind the other in the first `end` bytes of `mem`. */
  ghost predicate LaidOut(p: Packet, mem: seq<byte>, end: nat)
    requires Sendable(p)
  {
    var stop := 4 + |p.token| + |EncodeOptions(p.options)|;
    && At(mem, 0, EncodeHeader(p.header, |p.token|))
    && At(mem, 4, p.token)
    && At(mem, 4 + |p.token|, EncodeOptions(p.options))
    && if p.payload == [] then end == stop
       else end == stop + 1 + |p.payload| && stop < |mem| && mem[stop] == MARKER && At(mem, stop + 1, p.payload)
  }

  lemma FourParts(mem: seq<byte>, a: seq<byte>, b: seq<byte>, c: seq<byte>, d: seq<byte>)
    requires At(mem, 0, a + b + c + d)
    ensures At(mem, 0, a) && At(mem, |a|, b) && At(mem, |a| + |b|, c) && At(mem, |a| + |b| + |c|, d)
  {
    hide At;
    AtSplit(mem, 0, a + b + c, d);
    AtSplit(mem, 0, a + b, c);
    AtSplit(mem, 0, a, b);
  }

  lemma PacketLayout(p: Packet, mem: seq<byte>)
    requires Sendable(p) && At(mem, 0, Encode(p))
    ensures LaidOut(p, mem, |Encode(p)|)
  {
    EncodeParts(p);
    hide Encode, EncodeHeader, EncodeOptions, EncodePayload, At;
    var hd, opts, pay := EncodeHeader(p.header, |p.token|), EncodeOptions(p.options), EncodePayload(p.payload);
    FourParts(mem, hd, p.token, opts, pay);
    if p.payload != [] {
      var stop := 4 + |p.token| + |opts|;
      AtSplit(mem, stop, [MARKER], p.payload);
      AtIndex(mem, stop, [MARKER], 0);
    }
  }

  lemma AtInside(mem: seq<byte>, s: seq<byte>)
    requires At(mem, 0, s)
    ensures |s| <= |mem|
  {
  }

  lemma HeaderBytes(h: Header, tokenlen: nat, mem: seq<byte>)
    requires tokenlen <= MAX_TOKEN && At(mem, 0, EncodeHeader(h, tokenlen))
    ensures |mem| >= 4
    ensures mem[0] % 16 == tokenlen
    ensures DecodeHeader(mem) == h
  {
    var e := EncodeHeader(h, tokenlen);
    AtIndex(mem, 0, e, 0);
    AtIndex(mem, 0, e, 1);
    AtIndex(mem, 0, e, 2);
    AtIndex(mem, 0, e, 3);
  }

  /** The wire round trip, with the exact conditions under which the parts survive it: header, token
      and option values always; the option numbers if and only if all but the last fit in eight bits;
      the payload if and only if it is not empty or the byte behind the message is not 0xFF. */
  lemma WireRoundTrip(h: Header, token: seq<byte>, added: seq<MsgOption>, payload: seq<byte>, mem: seq<byte>)
    requires |token| <= 8 && |added| <= 12 && |payload| < 0x1_0000
    requires var e := Encode(Packet(h, token, Deltas(added, 0), payload));
             At(mem, 0, e) && (|e| < |mem| || payload != [])
    ensures var end := |Encode(Packet(h, token, Deltas(added, 0), payload))|;
            && end >= 4
            && var r := Decode(mem, end);
            && r.Some?
            && r.value.header == h && r.value.token == token
            && SameValues(r.value.options, added)
            && (r.value.options == added <==> NarrowButLast(added))
            && (r.value.payloadLen == |payload| <==> payload != [] || mem[end] != 0xFF)
            && (payload != [] ==> At(mem, r.value.payloadPos, payload))
  {
    hide Encode, Decode, Deltas, At, Absolutes, SameValues, NarrowButLast;
    var p := Packet(h, token, Deltas(added, 0), payload);
    var end := |Encode(p)|;
    DecodeEncoded(p, mem);
    assert At(mem, end - |payload|, payload) by { PayloadReadBack(p, mem); }
    OptionsSurvive(added);
    assert Reported(p, end, ByteAt(mem, end)).options == Absolutes(p.options, 0);
  }

  lemma OptionsSurvive(added: seq<MsgOption>)
    ensures SameValues(Absolutes(Deltas(added, 0), 0), added)
    ensures Absolutes(Deltas(added, 0), 0) == added <==> NarrowButLast(added)
  {
    assert Absolutes(Deltas(added, 0), 0) == added <==> NarrowButLast(added) by {
      NumbersSurvive(added, 0);
    }
    ValuesSurvive(added, 0, 0);
  }

  /** The two lists carry the same option values in the same order. */
  predicate SameValues(a: seq<MsgOption>, b: seq<MsgOption>) {
    |a| == |b| && forall i :: 0 <= i < |a| ==> a[i].val == b[i].val
  }

  lemma {:induction false} ValuesSurvive(added: seq<MsgOption>, prev8: byte, prev: u16)
    ensures SameValues(Absolutes(Deltas(added, prev8), prev), added)
  {
    if added != [] {
      var ds := Deltas(added, prev8);
      var n := (prev + ds[0].num) % 0x1_0000;
      assert ds[1..] == Deltas(added[1..], added[0].num % 0x100);
      ValuesSurvive(added[1..], added[0].num % 0x100, n);
      var rest := Absolutes(ds[1..], n);
      assert Absolutes(ds, prev) == [MsgOption(n, added[0].val)] + rest;
    }
  }
}
