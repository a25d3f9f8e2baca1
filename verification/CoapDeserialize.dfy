/** The parser: a moving position, a byte count and the running option number, filling a message. */
module CoapDeserialize {
  import opened Bytes
  import opened CoapWire
  import opened CoapMessage

  method DeserializeHeader(msg: Message, buf: array<byte>) returns (n: nat)
    requires buf.Length >= 4
    modifies msg`version, msg`mtype, msg`tokenlen, msg`code, msg`msgid
    ensures n == 4 && msg.TheHeader() == DecodeHeader(buf[..]) && msg.tokenlen == buf[0] % 16
  {
    msg.version := buf[0] / 64;
    msg.mtype := buf[0] / 16 % 4;
    msg.tokenlen := buf[0] % 16;
    msg.code := buf[1];
    msg.msgid := buf[2] as int * 0x100;
    msg.msgid := msg.msgid as int + buf[3] as int;
    return 4;
  }

  method DeserializeToken(msg: Message, buf: array<byte>, pos: nat) returns (n: nat)
    requires msg.Valid() && pos + msg.tokenlen <= buf.Length && buf != msg.token
    modifies msg.token
    ensures n == msg.tokenlen && msg.token[..n] == buf[pos..pos + n]
  {
    forall i | 0 <= i < msg.tokenlen { msg.token[i] := buf[pos + i]; }
    return msg.tokenlen;
  }

  /** Adding in 16 bits, one after the other, is adding in one. */
  lemma ThreeAdditions(n: int, hi: int, lo: int)
    ensures (((n + 269) % 0x1_0000 + hi) % 0x1_0000 + lo) % 0x1_0000 == (n + (269 + (hi + lo))) % 0x1_0000
  {
  }

  /** Adds the option delta of the given nibble to the running number, modulo 65536. */
  method ReadNumber(buf: array<byte>, pos: nat, nibble: byte, predelta: u16) returns (num: u16, ptr: nat)
    requires DecodeNibble(buf[..], pos, nibble).Some?
    ensures var r := DecodeNibble(buf[..], pos, nibble).value;
            num == (predelta + r.0) % 0x1_0000 && ptr == pos + r.1
  {
    var n: int := predelta;
    if 13 == nibble {
      return (n + 13 + buf[pos] as int) % 0x1_0000, pos + 1;
    } else if 14 == nibble {
      ThreeAdditions(n, buf[pos] as int * 0x100, buf[pos + 1]);
      n := (n + 269) % 0x1_0000;
      n := (n + buf[pos] as int * 0x100) % 0x1_0000;
      n := (n + buf[pos + 1] as int) % 0x1_0000;
      return n, pos + 2;
    } else {
      return (n + nibble as int) % 0x1_0000, pos;
    }
  }

  /** The option length of the given nibble, modulo 65536. */
  method ReadLength(buf: array<byte>, pos: nat, nibble: byte) returns (len: u16, ptr: nat)
    requires DecodeNibble(buf[..], pos, nibble).Some?
    ensures var r := DecodeNibble(buf[..], pos, nibble).value;
            len == r.0 % 0x1_0000 && ptr == pos + r.1
  {
    if 13 == nibble {
      return 13 + buf[pos] as int, pos + 1;
    } else if 14 == nibble {
      var n := 269;
      n := (n + buf[pos] as int * 0x100) % 0x1_0000;
      n := (n + buf[pos + 1] as int) % 0x1_0000;
      return n, pos + 2;
    } else {
      return nibble, pos;
    }
  }

  /** An option that is read has both its nibbles. */
  lemma NibblesAreThere(mem: seq<byte>, pos: nat, prev: u16)
    requires DecodeOption(mem, pos, prev).Some?
    ensures pos < |mem| && DecodeNibble(mem, pos + 1, mem[pos] / 16).Some?
    ensures DecodeNibble(mem, pos + 1 + DecodeNibble(mem, pos + 1, mem[pos] / 16).value.1, mem[pos] % 16).Some?
  {
  }

  /** Reads one option; `predelta` is the number of the option before it.  The consumed length is a
      16-bit number, which is exact because the memory is smaller than that. */
  method DeserializeOption(buf: array<byte>, pos: nat, predelta: u16) returns (o: MsgOption, n: u16)
    requires buf.Length < 0x1_0000
    requires DecodeOption(buf[..], pos, predelta).Some?
    ensures DecodeOption(buf[..], pos, predelta) == Some((o, n as nat))
  {
    hide DecodeNibble;
    ghost var mem := buf[..];
    NibblesAreThere(mem, pos, predelta);
    var ptr := pos + 1;
    var hi, lo: byte := buf[pos] / 16, buf[pos] % 16;
    ghost var r1 := DecodeNibble(mem, ptr, hi).value;
    var num, p1 := ReadNumber(buf, ptr, hi, predelta);
    ghost var r2 := DecodeNibble(mem, p1, lo).value;
    var optlen, p2 := ReadLength(buf, p1, lo);
    DecodeWholeOption(mem, pos, predelta, r1.0, r1.1, r2.0, r2.1);
    o := MsgOption(num, buf[p2..p2 + optlen as int]);
    n := (p2 - pos + optlen as int) % 0x1_0000;
  }

  /** The loop state of DeserializeOptions: with `done` read so far, the rest yields `goal`. */
  ghost predicate Remaining(mem: seq<byte>, ptr: nat, end: nat, prev: u16, done: seq<MsgOption>, goal: (seq<MsgOption>, nat)) {
    && end <= |mem| && |done| <= MAX_OPTIONS
    && var r := DecodeOptions(mem, ptr, end, prev, MAX_OPTIONS - |done|);
       r.Some? && goal == (done + r.value.0, r.value.1)
  }

  lemma RemainingStart(mem: seq<byte>, pos: nat, end: nat)
    requires end <= |mem| && DecodeOptions(mem, pos, end, 0, MAX_OPTIONS).Some?
    ensures Remaining(mem, pos, end, 0, [], DecodeOptions(mem, pos, end, 0, MAX_OPTIONS).value)
  {
    var r := DecodeOptions(mem, pos, end, 0, MAX_OPTIONS).value;
    assert [] + r.0 == r.0;
  }

  lemma RemainingStep(mem: seq<byte>, ptr: nat, end: nat, prev: u16, done: seq<MsgOption>, goal: (seq<MsgOption>, nat))
    requires Remaining(mem, ptr, end, prev, done, goal) && ptr < end && mem[ptr] != MARKER
    ensures |done| < MAX_OPTIONS
    ensures var r := DecodeOption(mem, ptr, prev);
            r.Some? && 1 <= r.value.1 <= |mem| - ptr
            && Remaining(mem, ptr + r.value.1, end, r.value.0.num, done + [r.value.0], goal)
  {
    var o, n := DecodeOption(mem, ptr, prev).value.0, DecodeOption(mem, ptr, prev).value.1;
    var rest := DecodeOptions(mem, ptr + n, end, o.num, MAX_OPTIONS - |done| - 1).value.0;
    assert done + ([o] + rest) == done + [o] + rest;
  }

  lemma RemainingEnd(mem: seq<byte>, ptr: nat, end: nat, prev: u16, done: seq<MsgOption>, goal: (seq<MsgOption>, nat))
    requires Remaining(mem, ptr, end, prev, done, goal) && (ptr >= end || mem[ptr] == MARKER)
    ensures goal == (done, ptr)
  {
    assert done + [] == done;
  }

  /** `goal` is what the option bytes parse to: the options and the stopping position. */
  method DeserializeOptions(msg: Message, buf: array<byte>, pos: nat, buflen: int, ghost goal: (seq<MsgOption>, nat)) returns (n: nat)
    requires msg.Valid() && 0 <= pos + buflen <= buf.Length < 0x1_0000 && pos <= buf.Length
    requires DecodeOptions(buf[..], pos, pos + buflen, 0, MAX_OPTIONS) == Some(goal)
    modifies msg`optcount, msg.options
    ensures msg.Valid() && msg.options[..msg.optcount] == goal.0 && pos + n == goal.1
  {
    hide DecodeOptions, DecodeOption;
    var index, count, ptr := 0, 0, pos;
    var optdeltas: u16 := 0;
    msg.optcount := 0;
    ghost var mem, end := buf[..], pos + buflen;
    ghost var done: seq<MsgOption> := [];
    RemainingStart(mem, pos, end);
    while count < buflen && MARKER != buf[ptr]
      invariant mem == buf[..] && ptr == pos + count <= |mem|
      invariant index == msg.optcount == |done| <= MAX_OPTIONS && msg.options[..index] == done
      invariant Remaining(mem, ptr, end, optdeltas, done, goal)
      decreases |mem| - ptr
    {
      RemainingStep(mem, ptr, end, optdeltas, done, goal);
      var o, len := DeserializeOption(buf, ptr, optdeltas);
      msg.options[index] := o;
      done := done + [o];
      optdeltas := o.num;
      msg.optcount := msg.optcount + 1;
      ptr := ptr + len as int;
      index := index + 1;
      count := count + len as int;
    }
    RemainingEnd(mem, ptr, end, optdeltas, done, goal);
    return ptr - pos;
  }

  method DeserializePayload(msg: Message, buf: array<byte>, pos: nat, buflen: int) returns (n: int)
    requires pos < buf.Length
    modifies msg`payload, msg`payloadlen
    ensures if buf[pos] == 0xFF then n == buflen && msg.payload == buf[pos + 1..] && msg.payloadlen == (buflen - 1) % 0x1_0000
            else n == 0 && msg.payload == old(msg.payload) && msg.payloadlen == old(msg.payloadlen)
  {
    if MARKER != buf[pos] {
      return 0;
    }
    msg.payloadlen := (buflen - 1) % 0x1_0000;
    msg.payload := buf[pos + 1..];
    return buflen;
  }

  /** The message holds what was parsed; the payload pointer points into the receive memory. */
  ghost predicate Holds(msg: Message, mem: seq<byte>, r: Parsed)
    reads msg, msg.token, msg.options
  {
    && msg.Valid()
    && msg.TheHeader() == r.header
    && msg.token[..msg.tokenlen] == r.token
    && msg.options[..msg.optcount] == r.options
    && msg.payloadlen == r.payloadLen
    && (r.payloadLen > 0 ==> r.payloadPos <= |mem| && msg.payload == mem[r.payloadPos..])
  }

  /** Header, token, options and payload in turn; `goal` is what the option bytes parse to. */
  method DeserializeStages(msg: Message, buf: array<byte>, datalen: nat, ghost goal: (seq<MsgOption>, nat))
    requires msg.Valid() && msg.payloadlen == 0 && buf != msg.token
    requires 4 <= datalen <= buf.Length < 0x1_0000
    requires var t := buf[0] % 16;
             && t <= MAX_TOKEN && 4 + t <= goal.1 < buf.Length
             && DecodeOptions(buf[..], 4 + t, datalen, 0, MAX_OPTIONS) == Some(goal)
    modifies msg, msg.token, msg.options
    ensures buf[..] == old(buf[..])
    ensures var mem, t := old(buf[..]), old(buf[0]) % 16;
            Holds(msg, mem, Assemble(mem, datalen, DecodeHeader(mem), mem[4..4 + t], goal.0, goal.1))
  {
    hide DecodeOptions;
    ghost var mem := buf[..];
    var remlen: int, ptr: nat := datalen, 0;

    var count: int := DeserializeHeader(msg, buf);
    ptr := ptr + count;
    remlen := remlen - count;

    count := DeserializeToken(msg, buf, ptr);
    ptr := ptr + count;
    remlen := remlen - count;

    assert buf[..] == mem;
    count := DeserializeOptions(msg, buf, ptr, remlen, goal);
    ptr := ptr + count;
    remlen := remlen - count;

    count := DeserializePayload(msg, buf, ptr, remlen);
  }

  /** `buf` is the receive memory, of which the first `datalen` bytes are the message.  The caller
      clears the message first. */
  method DeserializeMessage(msg: Message, buf: array<byte>, datalen: nat) returns (st: Status)
    requires msg.Valid() && msg.payloadlen == 0 && buf != msg.token
    requires datalen <= buf.Length < 0x1_0000
    requires datalen >= 4 ==> Decode(buf[..], datalen).Some?
    modifies msg, msg.token, msg.options
    ensures st == if datalen < 4 then InvalidLength else Success
    ensures buf[..] == old(buf[..])
    ensures datalen >= 4 ==> Holds(msg, old(buf[..]), Decode(old(buf[..]), datalen).value)
  {
    if datalen < 4 {
      return InvalidLength;
    }
    hide DecodeOptions, Decode, Holds, Assemble, DecodeHeader;
    ghost var mem := buf[..];
    assert buf[0] == mem[0];
    DecodeStages(mem, datalen);
    DeserializeStages(msg, buf, datalen, DecodeOptions(mem, 4 + mem[0] % 16, datalen, 0, MAX_OPTIONS).value);
    return Success;
  }
}
