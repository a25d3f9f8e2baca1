/** The CoAPMessage struct with the functions that fill it in and look options up. */
module CoapMessage {
  import opened Bits
  import opened Bytes
  import opened CoapWire

  const CUR_VERSION: two_bits := 1
  const TYPE_ACK: two_bits := 2

  datatype Status = Success | InvalidParam | InvalidLength | MallocFailed | NotFound

  // ----- integer option values (RFC 7252 section 3.2) -----

  /** The bytes CoAPUintOption_add stores: 0, 1, 2 or 4 of them, most significant first. */
  function UintBytes(v: u32): OptionValue {
    if v == 0 then []
    else if v <= 0xFF then [v]
    else if v <= 0xFFFF then [v / 0x100, v % 0x100]
    else [v / 0x100 / 0x100 / 0x100, v / 0x100 / 0x100 % 0x100, v / 0x100 % 0x100, v % 0x100]
  }

  /** The number that an option value of one to four bytes stands for, 0 for other lengths. */
  function UintValue(s: seq<byte>): u32 {
    if |s| == 1 then s[0] as int
    else if |s| == 2 then Word(s[0], s[1])
    else if |s| == 3 then s[0] as int * 0x1_0000 + Word(s[1], s[2])
    else if |s| == 4 then Word(s[0], s[1]) as int * 0x1_0000 + Word(s[2], s[3])
    else 0
  }

  /** Shifting by two or three bytes is shifting by one two or three times. */
  lemma ShiftedTwice(v: u32)
    ensures v / 0x1_0000 == v / 0x100 / 0x100 && v / 0x100_0000 == v / 0x100 / 0x100 / 0x100
  {
    var q1 := v / 0x100;
    var q2 := q1 / 0x100;
    var q3 := q2 / 0x100;
    assert v == q2 * 0x1_0000 + (q1 % 0x100 * 0x100 + v % 0x100);
    assert v == q3 * 0x100_0000 + (q2 % 0x100 * 0x1_0000 + q1 % 0x100 * 0x100 + v % 0x100);
  }

  /** The number comes back from its bytes. */
  lemma UintRoundTrip(v: u32)
    ensures UintValue(UintBytes(v)) == v
  {
    if v > 0xFFFF {
      var s := UintBytes(v);
      assert Word(s[0], s[1]) == v / 0x100 / 0x100;
      assert Word(s[2], s[3]) == v / 0x100 % 0x100 * 0x100 + v % 0x100;
    }
  }

  lemma WordIsOnes()
    ensures Ones(8) == 0xFF && Ones(16) == 0xFFFF && Ones(24) == 0xFF_FFFF && Ones(32) == 0xFFFF_FFFF
  {
    assert Ones(4) == 0xF && Ones(8) == 0xFF && Ones(12) == 0xFFF && Ones(16) == 0xFFFF;
    assert Ones(20) == 0xF_FFFF && Ones(24) == 0xFF_FFFF && Ones(28) == 0xFFF_FFFF;
  }

  /** What CoAPUintOption_get makes of its output word: the value is ORed into it. */
  function ReadInto(word: u32, s: seq<byte>): u32 {
    if 1 <= |s| <= 4 then
      WordIsOnes(); OrFits(32, word, UintValue(s));
      Or(word, UintValue(s))
    else 0
  }

  /** The word read is the value, whatever stood in the word before, exactly if the value has no digits to be
      ORed in or all of them are ones. */
  lemma ReadIsRightExactly(s: seq<byte>)
    ensures (forall word: u32 :: ReadInto(word, s) == UintValue(s)) <==> |s| == 0 || |s| > 4 || UintValue(s) == 0xFFFF_FFFF
    ensures ReadInto(0, s) == UintValue(s)
  {
    WordIsOnes();
    var v, full: u32 := UintValue(s), 0xFFFF_FFFF;
    OrWithZero(v);
    OrWithOnes(32, v);
    assert 1 <= |s| <= 4 ==> ReadInto(full, s) == full;
    forall word: u32 | v == full ensures Or(word, v) == v { OrWithOnes(32, word); }
  }

  /** The bytes are ORed in one after the other. */
  lemma ReadByBytes(word: u32, s: seq<byte>)
    ensures |s| == 1 ==> Or(word, s[0]) == ReadInto(word, s)
    ensures |s| == 2 ==> Or(Or(word, s[0] as int * 0x100), s[1]) == ReadInto(word, s)
    ensures |s| == 3 ==> Or(Or(Or(word, s[0] as int * 0x1_0000), s[1] as int * 0x100), s[2]) == ReadInto(word, s)
    ensures |s| == 4 ==> Or(Or(Or(Or(word, s[0] as int * 0x100_0000), s[1] as int * 0x1_0000), s[2] as int * 0x100), s[3])
                         == ReadInto(word, s)
  {
    hide Or, ShiftLeft, Ones;
    WordIsOnes();
    if 2 <= |s| <= 4 {
      var n := |s|;
      ByteShifts(s[0]);
      ByteShifts(s[1]);
      OrInParts(8 * (n - 1), word, s[0], UintValue(s[1..]));
      if n >= 3 {
        ByteShifts(s[2]);
        OrInParts(8 * (n - 2), Or(word, ShiftLeft(s[0], 8 * (n - 1))), s[1], UintValue(s[2..]));
        if n == 4 {
          OrInParts(8, Or(Or(word, ShiftLeft(s[0], 24)), ShiftLeft(s[1], 16)), s[2], UintValue(s[3..]));
        }
      }
    }
  }

  // ----- lookup -----

  /** The value of the first option with the given number. */
  function First(os: seq<MsgOption>, num: u16): Option<OptionValue> {
    if os == [] then None
    else if os[0].num == num then Some(os[0].val)
    else First(os[1..], num)
  }

  lemma {:induction false} FirstIsEarliest(os: seq<MsgOption>, num: u16, i: nat)
    requires i < |os| && os[i].num == num && forall j :: 0 <= j < i ==> os[j].num != num
    ensures First(os, num) == Some(os[i].val)
  {
    if i > 0 {
      assert os[0].num != num;
      assert forall j :: 0 <= j < i - 1 ==> os[1..][j] == os[j + 1];
      FirstIsEarliest(os[1..], num, i - 1);
    }
  }

  lemma {:induction false} FirstIsNone(os: seq<MsgOption>, num: u16)
    ensures First(os, num) == None <==> forall j :: 0 <= j < |os| ==> os[j].num != num
  {
    if os != [] {
      FirstIsNone(os[1..], num);
      assert forall j :: 0 <= j < |os| - 1 ==> os[1..][j] == os[j + 1];
      if os[0].num != num && First(os[1..], num) == None {
        forall j | 0 <= j < |os| ensures os[j].num != num {
          if j > 0 { assert os[1..][j - 1] == os[j]; }
        }
      }
    }
  }

  // ----- the struct -----

  class Message {
    var version: two_bits
    var mtype: two_bits
    var tokenlen: nat
    var code: byte
    var msgid: u16
    const token: array<byte>
    const options: array<MsgOption>
    var optcount: nat
    var optdelta: byte
    var payload: seq<byte>     // the memory from the payload pointer on
    var payloadlen: u16
    ghost var added: seq<MsgOption>   // the options added so far, under their own numbers

    ghost predicate Valid()
      reads this
    {
      && token.Length == MAX_TOKEN && tokenlen <= MAX_TOKEN
      && options.Length == MAX_OPTIONS && optcount <= MAX_OPTIONS
    }

    /** A message under construction: the stored options are the differences of the added ones. */
    ghost predicate Built()
      reads this, options
    {
      && Valid()
      && payloadlen <= |payload|
      && |added| == optcount
      && options[..optcount] == Deltas(added, 0)
      && optdelta == LastByte(added, 0)
    }

    function TheHeader(): Header
      reads this
    {
      Header(version, mtype, code, msgid)
    }

    /** What this message asks the printer to send. */
    function View(): Packet
      requires Valid() && payloadlen <= |payload|
      reads this, token, options
    {
      Packet(TheHeader(), token[..tokenlen], options[..optcount], payload[..payloadlen])
    }

    constructor Init()
      ensures Built() && fresh(token) && fresh(options)
      ensures TheHeader() == Header(1, 2, 0, 0)
      ensures tokenlen == 0 && added == [] && payload == [] && payloadlen == 0
    {
      version, mtype, tokenlen, code, msgid := CUR_VERSION, TYPE_ACK, 0, 0, 0;
      token := new byte[MAX_TOKEN](_ => 0);
      options := new MsgOption[MAX_OPTIONS](_ => MsgOption(0, []));
      optcount, optdelta := 0, 0;
      payload, payloadlen := [], 0;
      added := [];
    }

    method TokenSet(tok: seq<byte>) returns (st: Status)
      requires Built()
      modifies this`tokenlen, token
      ensures Built()
      ensures st == if |tok| <= 8 then Success else InvalidLength
      ensures st == Success ==> token[..tokenlen] == tok
      ensures st != Success ==> tokenlen == old(tokenlen) && token[..] == old(token[..])
    {
      if MAX_TOKEN < |tok| {
        return InvalidLength;
      }
      forall i | 0 <= i < |tok| { token[i] := tok[i]; }
      tokenlen := |tok|;
      return Success;
    }

    method PayloadSet(data: seq<byte>, len: u16) returns (st: Status)
      requires Built() && len <= |data|
      modifies this`payload, this`payloadlen
      ensures Built() && st == Success && payload[..payloadlen] == data[..len]
    {
      payload, payloadlen := data, len;
      return Success;
    }

    /** `alloc` tells whether the allocator has memory for the copy of the data. */
    method StrOptionAdd(optnum: u16, data: OptionValue, alloc: bool) returns (st: Status)
      requires Built()
      modifies this`optcount, this`optdelta, this`added, options
      ensures Built()
      ensures st == if |old(added)| == 12 then InvalidParam else if !alloc then MallocFailed else Success
      ensures added == if st == Success then old(added) + [MsgOption(optnum, data)] else old(added)
    {
      if MAX_OPTIONS <= optcount {
        return InvalidParam;
      }
      options[optcount] := MsgOption((optnum - optdelta) % 0x1_0000, options[optcount].val);
      if !alloc {
        return MallocFailed;
      }
      DeltasAppend(added, MsgOption(optnum, data), 0);
      options[optcount] := MsgOption(options[optcount].num, data);
      optdelta := optnum % 0x100;
      optcount := optcount + 1;
      added := added + [MsgOption(optnum, data)];
      return Success;
    }

    method UintOptionAdd(optnum: u16, data: u32) returns (st: Status)
      requires Built()
      modifies this`optcount, this`optdelta, this`added, options
      ensures Built()
      ensures st == if |old(added)| == 12 then InvalidParam else Success
      ensures added == if st == Success then old(added) + [MsgOption(optnum, UintBytes(data))] else old(added)
    {
      if MAX_OPTIONS <= optcount {
        return InvalidParam;
      }
      var val: OptionValue := [];
      if data == 0 {
      } else if 0xFF >= data {
        val := [data];
      } else if 0xFFFF >= data {
        val := [data / 0x100, data % 0x100];
      } else {
        ShiftedTwice(data);
        val := [data / 0x100_0000, data / 0x1_0000 % 0x100, data / 0x100 % 0x100, data % 0x100];
      }
      DeltasAppend(added, MsgOption(optnum, val), 0);
      options[optcount] := MsgOption((optnum - optdelta) % 0x1_0000, val);
      optdelta := optnum % 0x100;
      optcount := optcount + 1;
      added := added + [MsgOption(optnum, val)];
      return Success;
    }

    /** `cap` is the room in the caller's buffer. */
    method StrOptionGet(optnum: u16, cap: u16) returns (st: Status, data: seq<byte>)
      requires Valid()
      ensures match First(options[..optcount], optnum)
              case None => st == NotFound
              case Some(v) => if |v| <= cap then st == Success && data == v else st == InvalidLength
    {
      data := [];
      var index := 0;
      while index < optcount
        invariant index <= optcount
        invariant forall j :: 0 <= j < index ==> options[j].num != optnum
      {
        if options[index].num == optnum {
          FirstIsEarliest(options[..optcount], optnum, index);
          if cap >= |options[index].val| {
            data := options[index].val;
            return Success, data;
          } else {
            return InvalidLength, data;
          }
        }
        index := index + 1;
      }
      FirstIsNone(options[..optcount], optnum);
      return NotFound, data;
    }

    /** `before` is what the output word holds on entry. */
    method UintOptionGet(optnum: u16, before: u32) returns (st: Status, data: u32)
      requires Valid()
      ensures match First(options[..optcount], optnum)
              case None => st == NotFound && data == before
              case Some(v) => st == Success && data == ReadInto(before, v)
    {
      data := before;
      var index := 0;
      while index < optcount
        invariant index <= optcount
        invariant forall j :: 0 <= j < index ==> options[j].num != optnum
      {
        if options[index].num == optnum {
          FirstIsEarliest(options[..optcount], optnum, index);
          var val := options[index].val;
          ReadByBytes(data, val);
          match |val| {
            case 1 => data := Or(data, val[0]);
            case 2 => data := Or(Or(data, val[0] as int * 0x100), val[1]);
            case 3 => data := Or(Or(Or(data, val[0] as int * 0x1_0000), val[1] as int * 0x100), val[2]);
            case 4 => data := Or(Or(Or(Or(data, val[0] as int * 0x100_0000), val[1] as int * 0x1_0000), val[2] as int * 0x100), val[3]);
            case _ => data := 0;
          }
          return Success, data;
        }
        index := index + 1;
      }
      FirstIsNone(options[..optcount], optnum);
      return NotFound, data;
    }
  }
}
