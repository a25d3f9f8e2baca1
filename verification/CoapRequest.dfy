/** The options of a request: the path splitter, which exists in two copies that differ only in the
    longest URI they take, the option order of IOT_CoAP_SendMessage, and what the receiver reads back. */
module CoapRequest {
  import opened Bytes
  import opened CoapWire
  import opened CoapMessage
  import W = WireFormat

  const SLASH: byte := 0x2F
  const URI_PATH: u16 := 11
  const CONTENT_FORMAT: u16 := 12
  const ACCEPT: u16 := 17
  const AUTH_TOKEN: u16 := 61
  const OPTION_SEQ: u16 := 2089
  const URI_QUERY: u16 := 15
  const MAX_SEGMENT := 127        // the splitter's local buffer holds 128 bytes with the terminator

  const CLOUD_URI_MAX := 135
  const ALCS_URI_MAX := 256
  const ALCS_PATH_MAX := 255

  // ----- segments (RFC 7252 section 5.10.1) -----

  /** The non-empty segments of `cur + rest`, where `cur` is the slash-free start of the first one. */
  function SegmentsFrom(cur: seq<byte>, rest: seq<byte>): seq<seq<byte>>
    decreases |rest|
  {
    if rest == [] then (if cur == [] then [] else [cur])
    else if rest[0] == SLASH then (if cur == [] then [] else [cur]) + SegmentsFrom([], rest[1..])
    else SegmentsFrom(cur + [rest[0]], rest[1..])
  }

  function Segments(uri: seq<byte>): seq<seq<byte>> {
    SegmentsFrom([], uri)
  }

  function Join(segs: seq<seq<byte>>): seq<byte> {
    if segs == [] then [] else [SLASH] + segs[0] + Join(segs[1..])
  }

  /** Segments are non-empty and hold no slash, the byte 0x2F. */
  lemma {:induction false} SegmentsAreProper(cur: seq<byte>, rest: seq<byte>)
    requires 0x2F !in cur
    ensures forall s :: s in SegmentsFrom(cur, rest) ==> s != [] && 0x2F !in s
    decreases |rest|
  {
    if rest != [] {
      SegmentsAreProper(if rest[0] == SLASH then [] else cur + [rest[0]], rest[1..]);
    }
  }

  lemma {:induction false} SegmentsOfPiece(cur: seq<byte>, piece: seq<byte>, rest: seq<byte>)
    requires SLASH !in piece
    ensures SegmentsFrom(cur, piece + rest) == SegmentsFrom(cur + piece, rest)
    decreases |piece|
  {
    if piece == [] {
      assert piece + rest == rest && cur + piece == cur;
    } else {
      assert (piece + rest)[0] == piece[0] && (piece + rest)[1..] == piece[1..] + rest;
      SegmentsOfPiece(cur + [piece[0]], piece[1..], rest);
      assert cur + [piece[0]] + piece[1..] == cur + piece;
    }
  }

  /** Splitting undoes joining. */
  lemma {:induction false} SegmentsOfJoin(segs: seq<seq<byte>>)
    requires forall s :: s in segs ==> s != [] && 0x2F !in s
    ensures Segments(Join(segs)) == segs
  {
    if segs != [] {
      var tail := Join(segs[1..]);
      assert segs[0] in segs;
      assert Join(segs) == [SLASH] + (segs[0] + tail);
      assert Join(segs)[1..] == segs[0] + tail;
      SegmentsOfPiece([], segs[0], tail);
      assert [] + segs[0] == segs[0];
      SegmentsOfJoin(segs[1..]);
      if segs[1..] != [] {
        assert tail[0] == SLASH;
        assert SegmentsFrom(segs[0], tail) == [segs[0]] + SegmentsFrom([], tail[1..]);
        assert SegmentsFrom([], tail) == [] + SegmentsFrom([], tail[1..]);
      }
      assert segs == [segs[0]] + segs[1..];
    }
  }

  // ----- option lists -----

  /** The option slots take the first twelve options; later additions are refused one by one and the
      callers do not look. */
  function Kept(os: seq<MsgOption>): (r: seq<MsgOption>)
    ensures |r| <= MAX_OPTIONS
  {
    if |os| <= MAX_OPTIONS then os else os[..MAX_OPTIONS]
  }

  predicate Fits(segs: seq<seq<byte>>) {
    forall s :: s in segs ==> |s| <= MAX_SEGMENT
  }

  function PathOptions(segs: seq<seq<byte>>): (r: seq<MsgOption>)
    requires Fits(segs)
    ensures |r| == |segs|
    ensures forall i :: 0 <= i < |r| ==> r[i] == MsgOption(URI_PATH, segs[i])
  {
    if segs == [] then [] else [MsgOption(URI_PATH, segs[0])] + PathOptions(segs[1..])
  }

  lemma KeptAppend(os: seq<MsgOption>, o: MsgOption)
    ensures Kept(os + [o]) == if |os| < MAX_OPTIONS then Kept(os) + [o] else Kept(os)
  {
    if |os| >= MAX_OPTIONS {
      assert (os + [o])[..MAX_OPTIONS] == os[..MAX_OPTIONS];
    }
  }

  /** The URI ends within its last segment, and that segment is longer than the buffer: it is cut.  Longer
      segments before it have no place in the buffer. */
  predicate LastIsCut(uri: seq<byte>) {
    var segs := Segments(uri);
    segs != [] && uri != [] && uri[|uri| - 1] != SLASH && |segs[|segs| - 1]| > MAX_SEGMENT
  }

  /** The segments as the splitter adds them. */
  function SentSegments(uri: seq<byte>): (segs: seq<seq<byte>>)
    ensures |segs| == |Segments(uri)|
    ensures segs == Segments(uri) <==> !LastIsCut(uri)
  {
    var segs := Segments(uri);
    if LastIsCut(uri) then segs[..|segs| - 1] + [segs[|segs| - 1][..MAX_SEGMENT]] else segs
  }

  lemma PathOptionsAppend(segs: seq<seq<byte>>, seg: seq<byte>)
    requires Fits(segs) && |seg| <= MAX_SEGMENT
    ensures Fits(segs + [seg]) && PathOptions(segs + [seg]) == PathOptions(segs) + [MsgOption(URI_PATH, seg)]
  {
  }

  /** Adds an option behind `os`, the return code of the option builder being ignored. */
  method AddIgnoring(msg: Message, num: u16, data: OptionValue, ghost os: seq<MsgOption>)
    requires msg.Built() && msg.added == Kept(os)
    modifies msg`optcount, msg`optdelta, msg`added, msg.options
    ensures msg.Built() && msg.added == Kept(os + [MsgOption(num, data)])
  {
    var st := msg.StrOptionAdd(num, data, true);
    KeptAppend(os, MsgOption(num, data));
  }

  method AddUintIgnoring(msg: Message, num: u16, data: u32, ghost os: seq<MsgOption>)
    requires msg.Built() && msg.added == Kept(os)
    modifies msg`optcount, msg`optdelta, msg`added, msg.options
    ensures msg.Built() && msg.added == Kept(os + [MsgOption(num, UintBytes(data))])
  {
    hide UintBytes;
    var st := msg.UintOptionAdd(num, data);
    KeptAppend(os, MsgOption(num, UintBytes(data)));
  }

  method AddSegment(msg: Message, seg: seq<byte>, ghost before: seq<MsgOption>, ghost segs: seq<seq<byte>>)
    requires msg.Built() && Fits(segs) && |seg| <= MAX_SEGMENT
    requires msg.added == Kept(before + PathOptions(segs))
    modifies msg`optcount, msg`optdelta, msg`added, msg.options
    ensures msg.Built() && Fits(segs + [seg])
    ensures msg.added == Kept(before + PathOptions(segs + [seg]))
  {
    hide Kept, PathOptions, Fits;
    AddIgnoring(msg, URI_PATH, seg, before + PathOptions(segs));
    PathOptionsAppend(segs, seg);
    assert before + (PathOptions(segs) + [MsgOption(URI_PATH, seg)])
        == before + PathOptions(segs) + [MsgOption(URI_PATH, seg)];
  }

  /** The state of the splitter between two characters: `done` are the segments already added, the
      current one started at `pstr`. */
  ghost predicate Scanned(uri: seq<byte>, pstr: nat, ptr: nat, done: seq<seq<byte>>) {
    && pstr <= ptr <= |uri|
    && SLASH !in uri[pstr..ptr]
    && done + SegmentsFrom(uri[pstr..ptr], uri[ptr..]) == Segments(uri)
  }

  lemma ScanStart(uri: seq<byte>)
    ensures Scanned(uri, 0, 0, [])
  {
    assert uri[0..0] == [] && uri[0..] == uri;
    assert [] + Segments(uri) == Segments(uri);
  }

  lemma ScanSlash(uri: seq<byte>, pstr: nat, ptr: nat, done: seq<seq<byte>>)
    requires Scanned(uri, pstr, ptr, done) && ptr < |uri| && uri[ptr] == SLASH
    ensures Scanned(uri, ptr + 1, ptr + 1, if ptr == pstr then done else done + [uri[pstr..ptr]])
    ensures ptr == pstr || uri[pstr..ptr] in SentSegments(uri)
  {
    var cur, rest := uri[pstr..ptr], uri[ptr..];
    assert rest[0] == SLASH && rest[1..] == uri[ptr + 1..] && uri[ptr + 1..ptr + 1] == [];
    var first := if cur == [] then [] else [cur];
    assert SegmentsFrom(cur, rest) == first + SegmentsFrom([], rest[1..]);
    assert done + (first + SegmentsFrom([], rest[1..])) == (done + first) + SegmentsFrom([], rest[1..]);
    if ptr == pstr {
      assert done + first == done;
    } else {
      var segs, later := Segments(uri), SegmentsFrom([], rest[1..]);
      assert segs == done + [cur] + later;
      if later == [] {
        SlashesOnly(rest[1..]);
        assert uri[|uri| - 1] == rest[|rest| - 1] == SLASH;
      }
      assert SentSegments(uri)[|done|] == cur;
    }
  }

  /** No segment is left: only slashes are. */
  lemma {:induction false} SlashesOnly(rest: seq<byte>)
    requires SegmentsFrom([], rest) == []
    ensures rest == [] || rest[|rest| - 1] == SLASH
    decreases |rest|
  {
    if rest != [] {
      if rest[0] == SLASH {
        SlashesOnly(rest[1..]);
      } else {
        SomethingLeft([] + [rest[0]], rest[1..]);
      }
    }
  }

  lemma {:induction false} SomethingLeft(cur: seq<byte>, rest: seq<byte>)
    requires cur != []
    ensures SegmentsFrom(cur, rest) != []
    decreases |rest|
  {
    if rest != [] && rest[0] != SLASH { SomethingLeft(cur + [rest[0]], rest[1..]); }
  }

  lemma ScanOther(uri: seq<byte>, pstr: nat, ptr: nat, done: seq<seq<byte>>)
    requires Scanned(uri, pstr, ptr, done) && ptr < |uri| && uri[ptr] != SLASH
    ensures Scanned(uri, pstr, ptr + 1, done)
  {
    var rest := uri[ptr..];
    assert rest[0] == uri[ptr] && rest[1..] == uri[ptr + 1..];
    assert uri[pstr..ptr + 1] == uri[pstr..ptr] + [uri[ptr]];
  }

  lemma ScanEnd(uri: seq<byte>, pstr: nat, done: seq<seq<byte>>)
    requires Scanned(uri, pstr, |uri|, done)
    requires pstr == |uri| && uri != [] ==> uri[|uri| - 1] == SLASH
    ensures SentSegments(uri) == if pstr == |uri| then done else done + [Cut(uri[pstr..])]
  {
    assert uri[pstr..|uri|] == uri[pstr..] && uri[|uri|..] == [];
    if pstr == |uri| {
      assert done + [] == done;
    } else {
      assert Segments(uri) == done + [uri[pstr..]];
      assert uri[|uri| - 1] in uri[pstr..];
    }
  }

  /** What strncpy takes of a string into the buffer. */
  function Cut(seg: seq<byte>): (r: seq<byte>)
    ensures |r| <= MAX_SEGMENT
  {
    if |seg| <= MAX_SEGMENT then seg else seg[..MAX_SEGMENT]
  }

  /** The pointer loop of the splitter: the options gained are the non-empty segments in order, as
      many of them as there are slots, the last one cut if the URI ends with it. */
  method SplitPath(uri: seq<byte>, maxLen: nat, msg: Message) returns (ok: bool)
    requires msg.Built() && Fits(SentSegments(uri))
    modifies msg`optcount, msg`optdelta, msg`added, msg.options
    ensures msg.Built()
    ensures ok <==> |uri| <= maxLen
    ensures msg.added == if ok then Kept(old(msg.added) + PathOptions(SentSegments(uri))) else old(msg.added)
  {
    hide SegmentsFrom, Segments, SentSegments, PathOptions, Kept, Scanned, Fits, Message.Built, Message.Valid;
    if maxLen < |uri| {
      return false;
    }
    ghost var before, done: seq<seq<byte>> := msg.added, [];
    var ptr, pstr := 0, 0;
    NothingAdded(msg);
    ScanStart(uri);
    if |uri| == 0 { ScanEnd(uri, 0, []); }
    while ptr < |uri|
      invariant 0 <= pstr <= ptr <= |uri|
      invariant msg.Built() && Fits(done) && msg.added == Kept(before + PathOptions(done))
      invariant if ptr < |uri| then Scanned(uri, pstr, ptr, done) else done == SentSegments(uri)
    {
      if uri[ptr] == SLASH {
        ScanSlash(uri, pstr, ptr, done);
        if ptr != pstr {
          SegmentFits(SentSegments(uri), uri[pstr..ptr]);
          AddSegment(msg, uri[pstr..ptr], before, done);
          done := done + [uri[pstr..ptr]];
        }
        pstr := ptr + 1;
      } else {
        ScanOther(uri, pstr, ptr, done);
      }
      if ptr + 1 == |uri| {
        ScanEnd(uri, pstr, done);
        if pstr < |uri| {
          AddSegment(msg, Cut(uri[pstr..]), before, done);
          done := done + [Cut(uri[pstr..])];
        }
      }
      ptr := ptr + 1;
    }
    return true;
  }

  lemma SegmentFits(segs: seq<seq<byte>>, seg: seq<byte>)
    requires Fits(segs) && seg in segs
    ensures |seg| <= MAX_SEGMENT
  {
  }

  lemma NothingAdded(msg: Message)
    requires msg.Built()
    ensures Fits([]) && Kept(msg.added + PathOptions([])) == msg.added
  {
    assert msg.added + [] == msg.added;
  }

  /** alcs_msg_setAddr: the local copy of the splitter, and the query behind the path. */
  method SetAddr(msg: Message, path: seq<byte>, query: Option<OptionValue>) returns (ok: bool)
    requires msg.Built() && Fits(SentSegments(path))
    modifies msg`optcount, msg`optdelta, msg`added, msg.options
    ensures msg.Built() && (ok <==> |path| <= 255)
    ensures msg.added == if !ok then old(msg.added)
                         else Kept(old(msg.added) + PathOptions(SentSegments(path))
                                   + if query.Some? then [MsgOption(15, query.value)] else [])
  {
    hide PathOptions, SentSegments, Message.Built;
    if ALCS_PATH_MAX < |path| {
      return false;
    }
    ghost var os := msg.added + PathOptions(SentSegments(path));
    ok := SplitPath(path, ALCS_URI_MAX, msg);
    if query.Some? {
      AddIgnoring(msg, URI_QUERY, query.value, os);
    } else {
      assert os + [] == os;
    }
  }

  // ----- the request of IOT_CoAP_SendMessage -----

  /** The options in the order in which IOT_CoAP_SendMessage adds them; `cipherSeq` is the encrypted
      sequence number, present on pre-shared-key endpoints. */
  function RequestOptions(segs: seq<seq<byte>>, format: u32, accept: u32, auth: OptionValue, cipherSeq: Option<OptionValue>): seq<MsgOption>
    requires Fits(segs)
  {
    PathOptions(segs) + TailOptions(format, accept, auth, cipherSeq)
  }

  function TailOptions(format: u32, accept: u32, auth: OptionValue, cipherSeq: Option<OptionValue>): (r: seq<MsgOption>)
    ensures forall o :: o in r ==> o.num != URI_PATH
  {
    [MsgOption(CONTENT_FORMAT, UintBytes(format)), MsgOption(ACCEPT, UintBytes(accept)), MsgOption(AUTH_TOKEN, auth)]
    + if cipherSeq.Some? then [MsgOption(OPTION_SEQ, cipherSeq.value)] else []
  }

  /** The options of a request: the segments as Uri-Path (11), then Content-Format (12) and Accept (17) with
      their integers, the token (61), and the sequence number (2089) where there is one. */
  lemma RequestCarries(segs: seq<seq<byte>>, format: u32, accept: u32, auth: OptionValue, cipherSeq: Option<OptionValue>)
    requires Fits(segs)
    ensures var os, n := RequestOptions(segs, format, accept, auth, cipherSeq), |segs|;
            && |os| == n + 3 + (if cipherSeq.Some? then 1 else 0)
            && (forall i :: 0 <= i < n ==> os[i] == MsgOption(11, segs[i]))
            && os[n].num == 12 && BigEndian(os[n].val) == format && os[n + 1].num == 17 && BigEndian(os[n + 1].val) == accept
            && os[n + 2] == MsgOption(61, auth) && (cipherSeq.Some? ==> os[n + 3] == MsgOption(2089, cipherSeq.value))
  {
    W.UintIsBigEndian(format, []);
    W.UintIsBigEndian(accept, []);
    hide UintBytes, BigEndian;
  }

  /** The segments of a URI that are sent: all of them as they are, but of a last one that ends the URI only
      the first 127 bytes. */
  lemma SentSegmentsAre(uri: seq<byte>, i: nat)
    requires i < |Segments(uri)|
    ensures |SentSegments(uri)| == |Segments(uri)|
    ensures var s := Segments(uri)[i];
            SentSegments(uri)[i] == if i == |Segments(uri)| - 1 && uri[|uri| - 1] != 0x2F && |s| > 127 then s[..127] else s
  {
  }

  lemma RequestOptionsInOrder(path: seq<MsgOption>, o1: MsgOption, o2: MsgOption, o3: MsgOption, o4: seq<MsgOption>)
    ensures path + [o1] + [o2] + [o3] + o4 == path + ([o1, o2, o3] + o4)
  {
  }

  method AddRequestOptions(msg: Message, uri: seq<byte>, cbor: bool, auth: OptionValue, cipherSeq: Option<OptionValue>) returns (ok: bool)
    requires msg.Built() && msg.added == [] && Fits(SentSegments(uri))
    modifies msg`optcount, msg`optdelta, msg`added, msg.options
    ensures msg.Built() && (ok <==> |uri| <= 135)
    ensures ok ==> msg.added == Kept(RequestOptions(SentSegments(uri), if cbor then 60 else 50, 42, auth, cipherSeq))
  {
    hide UintBytes, PathOptions, Kept, SentSegments;
    ok := SplitPath(uri, CLOUD_URI_MAX, msg);
    if !ok {
      return;
    }
    ghost var path := PathOptions(SentSegments(uri));
    assert [] + path == path;
    var format: u32 := if cbor then 60 else 50;
    ghost var o1, o2, o3 := MsgOption(CONTENT_FORMAT, UintBytes(format)), MsgOption(ACCEPT, UintBytes(42)), MsgOption(AUTH_TOKEN, auth);
    AddUintIgnoring(msg, CONTENT_FORMAT, format, path);
    AddUintIgnoring(msg, ACCEPT, 42, path + [o1]);
    AddIgnoring(msg, AUTH_TOKEN, auth, path + [o1] + [o2]);
    if cipherSeq.Some? {
      AddIgnoring(msg, OPTION_SEQ, cipherSeq.value, path + [o1] + [o2] + [o3]);
      RequestOptionsInOrder(path, o1, o2, o3, [MsgOption(OPTION_SEQ, cipherSeq.value)]);
    } else {
      RequestOptionsInOrder(path, o1, o2, o3, []);
      assert path + [o1] + [o2] + [o3] + [] == path + [o1] + [o2] + [o3];
    }
  }

  // ----- what the receiver reads back -----

  /** The values of the Uri-Path options, in order. */
  function PathOf(os: seq<MsgOption>): seq<seq<byte>> {
    if os == [] then []
    else (if os[0].num == URI_PATH then [os[0].val] else []) + PathOf(os[1..])
  }

  lemma {:induction false} PathOfAppend(a: seq<MsgOption>, b: seq<MsgOption>)
    ensures PathOf(a + b) == PathOf(a) + PathOf(b)
  {
    if a == [] {
      assert a + b == b;
    } else {
      assert (a + b)[1..] == a[1..] + b;
      PathOfAppend(a[1..], b);
    }
  }

  lemma {:induction false} PathOfPathOptions(segs: seq<seq<byte>>)
    requires Fits(segs)
    ensures PathOf(PathOptions(segs)) == segs
  {
    if segs != [] {
      PathOfPathOptions(segs[1..]);
      assert PathOptions(segs)[1..] == PathOptions(segs[1..]);
    }
  }

  lemma {:induction false} PathOfOthers(os: seq<MsgOption>)
    requires forall o :: o in os ==> o.num != URI_PATH
    ensures PathOf(os) == []
  {
    if os != [] { PathOfOthers(os[1..]); }
  }

  lemma PathOptionsPrefix(segs: seq<seq<byte>>, n: nat)
    requires Fits(segs) && n <= |segs|
    ensures Fits(segs[..n]) && PathOptions(segs[..n]) == PathOptions(segs)[..n]
  {
    hide PathOptions;
    assert forall i :: 0 <= i < n ==> segs[..n][i] == segs[i];
  }

  lemma KeptSplit(a: seq<MsgOption>, b: seq<MsgOption>)
    ensures var n := if |a| <= MAX_OPTIONS then |a| else MAX_OPTIONS;
            var k := if |a| + |b| <= MAX_OPTIONS then |b| else MAX_OPTIONS - n;
            Kept(a + b) == a[..n] + b[..k]
  {
  }

  lemma PathOfKept(segs: seq<seq<byte>>, tail: seq<MsgOption>)
    requires Fits(segs) && forall o :: o in tail ==> o.num != URI_PATH
    ensures PathOf(Kept(PathOptions(segs) + tail)) == if |segs| <= MAX_OPTIONS then segs else segs[..MAX_OPTIONS]
  {
    hide PathOptions, PathOf, Kept;
    var all := PathOptions(segs);
    var n := if |segs| <= MAX_OPTIONS then |segs| else MAX_OPTIONS;
    var k := if |segs| + |tail| <= MAX_OPTIONS then |tail| else MAX_OPTIONS - n;
    assert Kept(all + tail) == all[..n] + tail[..k] by { KeptSplit(all, tail); }
    assert all[..n] == PathOptions(segs[..n]) by { PathOptionsPrefix(segs, n); }
    PathOfAppend(all[..n], tail[..k]);
    PathOfPathOptions(segs[..n]);
    PathOfOthers(tail[..k]);
    assert PathOf(all[..n] + tail[..k]) == segs[..n] + [];
  }

  lemma RequestIsNarrow(segs: seq<seq<byte>>, format: u32, accept: u32, auth: OptionValue, cipherSeq: Option<OptionValue>)
    requires Fits(segs)
    ensures NarrowButLast(Kept(RequestOptions(segs, format, accept, auth, cipherSeq)))
  {
  }

  /** A request built by IOT_CoAP_SendMessage arrives as built, sequence option 2089 included; every option
      arrives exactly when path and other options together fit the slots.  The receiver reads back the
      segments of the URI exactly when there are at most twelve and the last one was not cut. */
  lemma RequestRoundTrip(h: Header, token: seq<byte>, uri: seq<byte>, format: u32, accept: u32,
                         auth: OptionValue, cipherSeq: Option<OptionValue>, payload: seq<byte>, mem: seq<byte>)
    requires |token| <= MAX_TOKEN && Fits(SentSegments(uri)) && |payload| < 0x1_0000
    requires var os := Kept(RequestOptions(SentSegments(uri), format, accept, auth, cipherSeq));
             var e := Encode(Packet(h, token, Deltas(os, 0), payload));
             At(mem, 0, e) && (|e| < |mem| || payload != [])
    ensures var all := RequestOptions(SentSegments(uri), format, accept, auth, cipherSeq);
            var end := |Encode(Packet(h, token, Deltas(Kept(all), 0), payload))|;
            && end >= 4 && Decode(mem, end).Some?
            && var got := Decode(mem, end).value.options;
            && got == Kept(all)
            && (got == all <==> |Segments(uri)| + |TailOptions(format, accept, auth, cipherSeq)| <= MAX_OPTIONS)
            && (PathOf(got) == Segments(uri) <==> |Segments(uri)| <= MAX_OPTIONS && !LastIsCut(uri))
  {
    hide Decode, Deltas, Encode, At, PathOptions, SentSegments, Segments, LastIsCut;
    var segs := SentSegments(uri);
    var all := RequestOptions(segs, format, accept, auth, cipherSeq);
    assert NarrowButLast(Kept(all)) by { RequestIsNarrow(segs, format, accept, auth, cipherSeq); }
    WireRoundTrip(h, token, Kept(all), payload, mem);
    PathOfKept(segs, TailOptions(format, accept, auth, cipherSeq));
  }

  /** For every 32-bit value, adding it under a number of its own, printing, parsing and looking it up
      gives the value back. */
  lemma UintOptionOverWire(h: Header, token: seq<byte>, added: seq<MsgOption>, payload: seq<byte>, mem: seq<byte>, k: nat, v: u32)
    requires |token| <= MAX_TOKEN && |added| <= MAX_OPTIONS && |payload| < 0x1_0000 && NarrowButLast(added)
    requires k < |added| && added[k].val == UintBytes(v)
    requires forall j :: 0 <= j < |added| && j != k ==> added[j].num != added[k].num
    requires var e := Encode(Packet(h, token, Deltas(added, 0), payload)); At(mem, 0, e) && (|e| < |mem| || payload != [])
    ensures var end := |Encode(Packet(h, token, Deltas(added, 0), payload))|;
            && end >= 4 && Decode(mem, end).Some?
            && var got := First(Decode(mem, end).value.options, added[k].num);
            got.Some? && UintValue(got.value) == v
  {
    hide Decode, Encode, At, UintBytes, UintValue;
    WireRoundTrip(h, token, added, payload, mem);
    FirstIsEarliest(added, added[k].num, k);
    UintRoundTrip(v);
  }
}
