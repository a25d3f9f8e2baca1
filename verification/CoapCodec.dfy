/** A message on its way from the builder through printer and parser into the struct of the receiver. */
module CoapCodec {
  import opened Bytes
  import opened CoapWire
  import opened CoapMessage
  import CoapSerialize
  import CoapDeserialize

  /** What the network does with a datagram: it arrives at the front of a receive buffer that was filled
      with zeros before. */
  method Transfer(sendbuf: array<byte>, n: nat, room: nat) returns (recvbuf: array<byte>)
    requires n <= sendbuf.Length && n <= room
    ensures fresh(recvbuf) && recvbuf.Length == room
    ensures recvbuf[..n] == sendbuf[..n] && forall i :: n <= i < room ==> recvbuf[i] == 0
  {
    recvbuf := new byte[room](_ => 0);
    forall i | 0 <= i < n { recvbuf[i] := sendbuf[i]; }
  }

  /** What the parse of a message reports that has a zero byte behind it, or a payload up to the end of the
      memory. */
  lemma ReadBack(p: Packet, added: seq<MsgOption>, mem: seq<byte>)
    requires |p.token| <= MAX_TOKEN && |added| <= MAX_OPTIONS && |p.payload| < 0x1_0000 && p.options == Deltas(added, 0)
    requires |Encode(p)| <= |mem| && mem[..|Encode(p)|] == Encode(p)
    requires if |Encode(p)| < |mem| then mem[|Encode(p)|] == 0 else p.payload != []
    ensures |Encode(p)| >= 4 && Decode(mem, |Encode(p)|).Some?
    ensures var r := Decode(mem, |Encode(p)|).value;
            && r.header == p.header && r.token == p.token && SameValues(r.options, added)
            && (r.options == added <==> NarrowButLast(added))
            && r.payloadLen as int == |p.payload|
            && (p.payload != [] ==> At(mem, r.payloadPos, p.payload))
  {
    hide Encode, Decode, Deltas, SameValues, NarrowButLast;
    assert mem[0..0 + |Encode(p)|] == Encode(p);
    assert p == Packet(p.header, p.token, Deltas(added, 0), p.payload);
    WireRoundTrip(p.header, p.token, added, p.payload, mem);
  }

  /** Printing a message, sending it and parsing it: header, token, option values and payload arrive as
      they were; the option numbers arrive exactly if all but the last are below 256.  A message with
      payload may fill the receive buffer. */
  method ThereAndBack(msg: Message, sendbuf: array<byte>, room: nat, got: Message) returns (st: Status)
    requires msg.Built() && got.Valid() && got.payloadlen == 0
    requires sendbuf != msg.token && sendbuf != got.token
    requires got != msg && got.token != msg.token && got.options != msg.options
    requires |Encode(msg.View())| <= sendbuf.Length < 0x1_0000 && |Encode(msg.View())| <= room < 0x1_0000
    requires |Encode(msg.View())| < room || msg.payloadlen > 0
    modifies sendbuf, got, got.token, got.options
    ensures st == Success && got.Valid()
    ensures got.TheHeader() == msg.TheHeader() && got.token[..got.tokenlen] == msg.token[..msg.tokenlen]
    ensures SameValues(got.options[..got.optcount], msg.added)
    ensures got.options[..got.optcount] == msg.added <==> NarrowButLast(msg.added)
    ensures got.payloadlen == msg.payloadlen
    ensures msg.payloadlen > 0 ==> got.payloadlen as int <= |got.payload| && got.payload[..got.payloadlen] == msg.payload[..msg.payloadlen]
  {
    hide Encode, Decode, Deltas, SameValues, NarrowButLast, Wrote, At;
    ghost var p, added, b0 := msg.View(), msg.added, sendbuf[..];
    var n := CoapSerialize.SerializeMessage(msg, sendbuf);
    WroteAtFront(b0, sendbuf[..], Encode(p));
    assert sendbuf[..n] == Encode(p);
    var recvbuf := Transfer(sendbuf, n, room);
    ghost var mem := recvbuf[..];
    assert mem[..n] == recvbuf[..n] && (n < room ==> mem[n] == 0);
    ReadBack(p, added, mem);
    st := CoapDeserialize.DeserializeMessage(got, recvbuf, n);
    ghost var r := Decode(mem, n).value;
    if p.payload != [] {
      AtFront(mem, r.payloadPos, p.payload);
    }
  }

  lemma WroteAtFront(before: seq<byte>, after: seq<byte>, s: seq<byte>)
    requires Wrote(before, after, 0, s)
    ensures |s| <= |after| && after[..|s|] == s
  {
  }

  lemma AtFront(mem: seq<byte>, pos: nat, s: seq<byte>)
    requires At(mem, pos, s)
    ensures pos + |s| <= |mem| && mem[pos..][..|s|] == s
  {
  }

  /** Options 300 and 301 in this order: the second arrives as 557. */
  lemma WideNumbersArriveChanged()
    ensures var added := [MsgOption(300, []), MsgOption(301, [])];
            Absolutes(Deltas(added, 0), 0) == [MsgOption(300, []), MsgOption(557, [])]
  {
    var added := [MsgOption(300, []), MsgOption(301, [])];
    assert added[1..] == [MsgOption(301, [])] && added[1..][1..] == [];
    assert Deltas(added[1..], 44) == [MsgOption(257, [])];
    var sent := Deltas(added, 0);
    assert sent == [MsgOption(300, []), MsgOption(257, [])];
    assert sent[1..] == [MsgOption(257, [])] && sent[1..][1..] == [];
    assert Absolutes(sent[1..], 300) == [MsgOption(557, [])];
  }
}
