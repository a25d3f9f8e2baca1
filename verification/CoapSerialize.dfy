/** The printer: each stage writes its bytes behind an advancing position of the send buffer. */
module CoapSerialize {
  import opened Bytes
  import opened CoapWire
  import opened CoapMessage

  method SerializeHeader(msg: Message, buf: array<byte>, buflen: u16) returns (n: nat)
    requires msg.Valid() && buflen as int <= buf.Length && buf != msg.token
    modifies buf
    ensures n == if 4 > buflen then 0 else 4
    ensures Wrote(old(buf[..]), buf[..], 0, if 4 > buflen then [] else EncodeHeader(msg.TheHeader(), msg.tokenlen))
  {
    if 4 > buflen {
      return 0;
    }
    buf[0] := msg.version * 64 + msg.mtype * 16 + msg.tokenlen;
    buf[1] := msg.code;
    buf[2] := msg.msgid / 0x100;
    buf[3] := msg.msgid % 0x100;
    return 4;
  }

  method SerializeToken(msg: Message, buf: array<byte>, pos: nat, buflen: u16) returns (n: nat)
    requires msg.Valid() && pos + buflen as int <= buf.Length && buf != msg.token
    modifies buf
    ensures n == if buflen as int < msg.tokenlen then 0 else msg.tokenlen
    ensures Wrote(old(buf[..]), buf[..], pos, msg.token[..n])
  {
    hide Wrote;
    ghost var b0 := buf[..];
    WroteNothing(b0, pos);
    if buflen as int < msg.tokenlen {
      return 0;
    }
    var i := 0;
    while i < msg.tokenlen
      invariant i <= msg.tokenlen
      invariant Wrote(b0, buf[..], pos, msg.token[..i])
    {
      ghost var b1 := buf[..];
      buf[pos + i] := msg.token[i];
      WroteOne(b0, b1, pos, msg.token[..i], msg.token[i]);
      assert msg.token[..i] + [msg.token[i]] == msg.token[..i + 1];
      i := i + 1;
    }
    return msg.tokenlen;
  }

  /** The 13 and 14 extension bytes of an option number or length. */
  method SerializeExtension(n: u16, buf: array<byte>, pos: nat) returns (ptr: nat)
    requires pos + |Extension(n)| <= buf.Length
    modifies buf
    ensures ptr == pos + |Extension(n)| && Wrote(old(buf[..]), buf[..], pos, Extension(n))
  {
    ptr := pos;
    if 269 <= n {
      buf[ptr] := (n - 269) / 0x100;
      buf[ptr + 1] := (n - 269) % 0x100;
      ptr := ptr + 2;
    } else if 13 <= n {
      buf[ptr] := n - 13;
      ptr := ptr + 1;
    }
  }

  method SerializeBytes(s: seq<byte>, buf: array<byte>, pos: nat)
    requires pos + |s| <= buf.Length
    modifies buf
    ensures Wrote(old(buf[..]), buf[..], pos, s)
  {
    forall i | 0 <= i < |s| { buf[pos + i] := s[i]; }
  }

  /** An option up to its value. */
  function OptionHead(o: MsgOption): (h: seq<byte>)
    ensures |h| <= 5
  {
    [Nibble(o.num) * 16 + Nibble(|o.val|)] + Extension(o.num) + Extension(|o.val|)
  }

  lemma HeadAndValue(o: MsgOption)
    ensures EncodeOption(o) == OptionHead(o) + o.val
  {
  }

  lemma HeadParts(o: MsgOption)
    ensures var n, len := o.num, |o.val|;
            var first := (if 269 <= n then 14 * 16 else if 13 <= n then 13 * 16 else n * 16)
                         + if 269 <= len then 14 else if 13 <= len then 13 else len;
            OptionHead(o) == [first] + Extension(n) + Extension(len)
  {
  }

  method SerializeOptionHead(o: MsgOption, buf: array<byte>, pos: nat) returns (ptr: nat)
    requires pos + |OptionHead(o)| <= buf.Length
    modifies buf
    ensures ptr == pos + |OptionHead(o)| && Wrote(old(buf[..]), buf[..], pos, OptionHead(o))
  {
    hide Wrote, Extension, Nibble, OptionHead;
    HeadParts(o);
    var len := |o.val|;
    var first: byte := if 269 <= o.num then 14 * 16 else if 13 <= o.num then 13 * 16 else o.num * 16;
    first := first + if 269 <= len then 14 else if 13 <= len then 13 else len;
    ghost var b0 := buf[..];
    SerializeBytes([first], buf, pos);
    ghost var b1 := buf[..];
    ptr := SerializeExtension(o.num, buf, pos + 1);
    WroteBoth(b0, b1, buf[..], pos, [first], Extension(o.num));
    b1 := buf[..];
    ptr := SerializeExtension(len, buf, ptr);
    WroteBoth(b0, b1, buf[..], pos, [first] + Extension(o.num), Extension(len));
  }

  /** The returned length is a 16-bit number. */
  method SerializeOption(o: MsgOption, buf: array<byte>, pos: nat) returns (n: u16)
    requires pos + |EncodeOption(o)| <= buf.Length
    modifies buf
    ensures n == |EncodeOption(o)| % 0x1_0000 && (|EncodeOption(o)| < 0x1_0000 ==> n == |EncodeOption(o)|)
    ensures Wrote(old(buf[..]), buf[..], pos, EncodeOption(o))
  {
    hide Wrote, OptionHead, EncodeOption;
    HeadAndValue(o);
    ghost var b0 := buf[..];
    var ptr := SerializeOptionHead(o, buf, pos);
    ghost var b1 := buf[..];
    SerializeBytes(o.val, buf, ptr);
    WroteBoth(b0, b1, buf[..], pos, OptionHead(o), o.val);
    ptr := ptr + |o.val|;
    SixteenBits(ptr - pos);
    return (ptr - pos) % 0x1_0000;
  }

  lemma SixteenBits(n: nat)
    ensures n < 0x1_0000 ==> n % 0x1_0000 == n
  {
  }

  lemma {:induction false} EncodeOptionsPrefix(os: seq<MsgOption>, i: nat)
    requires i < |os|
    ensures EncodeOptions(os[..i + 1]) == EncodeOptions(os[..i]) + EncodeOption(os[i])
    ensures |EncodeOptions(os[..i + 1])| <= |EncodeOptions(os)|
    decreases |os| - i
  {
    hide EncodeOption;
    assert os[..i + 1] == os[..i] + [os[i]];
    EncodeOptionsAppend(os[..i], os[i]);
    if i + 1 < |os| {
      EncodeOptionsPrefix(os, i + 1);
    } else {
      assert os[..i + 1] == os;
    }
  }

  lemma NoOptions(os: seq<MsgOption>)
    ensures EncodeOptions(os[..0]) == []
  {
  }

  method SerializeOptions(msg: Message, buf: array<byte>, pos: nat) returns (count: u16)
    requires msg.Valid() && buf.Length < 0x1_0000
    requires pos + |EncodeOptions(msg.options[..msg.optcount])| <= buf.Length
    modifies buf
    ensures count == |EncodeOptions(msg.options[..msg.optcount])|
    ensures Wrote(old(buf[..]), buf[..], pos, EncodeOptions(msg.options[..msg.optcount]))
  {
    hide EncodeOption, EncodeOptions, Wrote;
    ghost var os, b0 := msg.options[..msg.optcount], buf[..];
    ghost var done: seq<byte> := [];
    NoOptions(os);
    WroteNothing(b0, pos);
    count := 0;
    var i := 0;
    while i < msg.optcount
      invariant i <= msg.optcount
      invariant done == EncodeOptions(os[..i]) && count as int == |done| && pos + |done| <= buf.Length
      invariant Wrote(b0, buf[..], pos, done)
    {
      EncodeOptionsPrefix(os, i);
      ghost var b1, e := buf[..], EncodeOption(os[i]);
      var len := SerializeOption(msg.options[i], buf, pos + count as int);
      WroteBoth(b0, b1, buf[..], pos, done, e);
      done := done + e;
      assert len == |e| > 0;   // the C code gives up on a length of 0
      count := count + len;
      i := i + 1;
    }
    assert os[..i] == os;
  }

  method SerializePayload(msg: Message, buf: array<byte>, pos: nat, buflen: u16) returns (n: nat)
    requires msg.Valid() && msg.payloadlen as int <= |msg.payload| && pos + buflen as int <= buf.Length
    modifies buf
    ensures var e := if msg.payloadlen as int + 1 > buflen as int then [] else EncodePayload(msg.payload[..msg.payloadlen]);
            n == |e| && Wrote(old(buf[..]), buf[..], pos, e)
  {
    if msg.payloadlen as int + 1 > buflen as int {
      return 0;
    }
    if msg.payloadlen > 0 {
      ghost var b0 := buf[..];
      SerializeBytes([MARKER], buf, pos);
      ghost var b1 := buf[..];
      SerializeBytes(msg.payload[..msg.payloadlen], buf, pos + 1);
      WroteBoth(b0, b1, buf[..], pos, [MARKER], msg.payload[..msg.payloadlen]);
      return msg.payloadlen as int + 1;
    } else {
      return 0;
    }
  }

  /** The first two stages, given that they fit. */
  method SerializeHeaderAndToken(msg: Message, buf: array<byte>, buflen: u16) returns (n: nat)
    requires msg.Valid() && 4 + msg.tokenlen <= buflen as int <= buf.Length && buf != msg.token
    modifies buf
    ensures n == 4 + msg.tokenlen
    ensures Wrote(old(buf[..]), buf[..], 0, EncodeHeader(msg.TheHeader(), msg.tokenlen) + msg.token[..msg.tokenlen])
  {
    hide Wrote, EncodeHeader;
    ghost var b0 := buf[..];
    var count := SerializeHeader(msg, buf, buflen);
    ghost var b1 := buf[..];
    n := SerializeToken(msg, buf, count, buflen - count);
    WroteBoth(b0, b1, buf[..], 0, EncodeHeader(msg.TheHeader(), msg.tokenlen), msg.token[..msg.tokenlen]);
    n := count + n;
  }

  /** A message that fits the buffer is written out in full, byte for byte as specified, and the
      returned count is the number of bytes written. */
  method SerializeMessage(msg: Message, buf: array<byte>) returns (n: nat)
    requires msg.Valid() && msg.payloadlen as int <= |msg.payload|
    requires buf != msg.token && |Encode(msg.View())| <= buf.Length < 0x1_0000
    modifies buf
    ensures n == |Encode(msg.View())|
    ensures Wrote(old(buf[..]), buf[..], 0, Encode(msg.View()))
  {
    hide Wrote, EncodeOptions, EncodeHeader, EncodePayload, Encode;
    ghost var p, b0 := msg.View(), buf[..];
    EncodeLength(p);
    EncodeParts(p);
    var remlen: u16 := buf.Length;
    var ptr := 0;

    var count := SerializeHeaderAndToken(msg, buf, remlen);
    ptr := ptr + count;
    remlen := remlen - count;
    ghost var done := EncodeHeader(p.header, |p.token|) + p.token;

    ghost var b1 := buf[..];
    count := SerializeOptions(msg, buf, ptr);
    ptr := ptr + count;
    remlen := remlen - count;
    WroteBoth(b0, b1, buf[..], 0, done, EncodeOptions(p.options));
    done := done + EncodeOptions(p.options);
    assert ptr == |done| && remlen == buf.Length - ptr;

    b1 := buf[..];
    count := SerializePayload(msg, buf, ptr, remlen);
    WroteBoth(b0, b1, buf[..], 0, done, EncodePayload(p.payload));
    remlen := remlen - count;
    return buf.Length - remlen as int;
  }

  // ----- the length computed in advance -----

  /** 16-bit arithmetic throughout, so the result is the true length only while that fits. */
  method OptionLen(o: MsgOption) returns (len: u16)
    ensures len == |EncodeOption(o)| % 0x1_0000
  {
    var l := 1;
    if 269 <= o.num { l := l + 2; } else if 13 <= o.num { l := l + 1; }
    if 269 <= |o.val| { l := l + 2; } else if 13 <= |o.val| { l := l + 1; }
    return (l + |o.val|) % 0x1_0000;
  }

  method OptionsLen(msg: Message) returns (count: u16)
    requires msg.Valid()
    ensures var n := |EncodeOptions(msg.options[..msg.optcount])|;
            count == n <==> n < 0x1_0000
  {
    hide EncodeOption;
    ghost var os := msg.options[..msg.optcount];
    count := 0;
    var i := 0;
    while i < msg.optcount
      invariant i <= msg.optcount
      invariant |EncodeOptions(os[..i])| < 0x1_0000 ==> count == |EncodeOptions(os[..i])|
    {
      EncodeOptionsPrefix(os, i);
      var len := OptionLen(msg.options[i]);
      if 0 < len {
        count := (count as int + len as int) % 0x1_0000;
      } else {
        return 0;
      }
      i := i + 1;
    }
    assert os[..i] == os;
  }

  /** The sum that wraps is below the true one exactly when the true one does not fit; a wrapped length of
      the options does not make up for it. */
  lemma LengthsWrap(tokenlen: nat, o: u16, options: nat, payload: nat)
    requires tokenlen < 16 && payload < 0x1_0000 && (o == options <==> options < 0x1_0000)
    ensures var n := 4 + tokenlen + options + if payload > 0 then payload + 1 else 0;
            var l := (4 + tokenlen + o) % 0x1_0000;
            (if payload > 0 then ((l + payload) % 0x1_0000 + 1) % 0x1_0000 else l) == n <==> n < 0x1_0000
  {
  }

  /** The announced length is the number of bytes the printer writes, exactly when that number fits
      in sixteen bits. */
  method MessageLength(msg: Message) returns (msglen: u16)
    requires msg.Valid() && msg.payloadlen as int <= |msg.payload|
    ensures var n := |Encode(msg.View())|;
            msglen == n <==> n < 0x1_0000
  {
    hide Encode, EncodeOptions;
    EncodeLength(msg.View());
    var l: nat := 4;
    l := (l + msg.tokenlen) % 0x1_0000;
    var o := OptionsLen(msg);
    LengthsWrap(msg.tokenlen, o, |EncodeOptions(msg.options[..msg.optcount])|, msg.payloadlen);
    l := (l + o as int) % 0x1_0000;
    if 0 < msg.payloadlen {
      l := (l + msg.payloadlen as int) % 0x1_0000;
      l := (l + 1) % 0x1_0000;
    }
    return l;
  }
}
