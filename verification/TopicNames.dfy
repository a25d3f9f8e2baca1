/** Topic names of the device model: building them from a product key and a device name, and finding the
    two again between the delimiters. */
module TopicNames {
  import opened Bytes

  const DELIMITER := '/'
  const SYS_PREFIX := "/sys/%s/%s/"
  const COAP_PREFIX := "/topic"

  // ----- splitting at the n-th delimiter -----

  function Count(s: string, d: char): nat {
    if s == [] then 0 else (if s[0] == d then 1 else 0) + Count(s[1..], d)
  }

  lemma {:induction false} CountAppend(a: string, b: string, d: char)
    ensures Count(a + b, d) == Count(a, d) + Count(b, d)
  {
    if a == [] {
      assert a + b == b;
    } else {
      CountAppend(a[1..], b, d);
      assert (a + b)[1..] == a[1..] + b;
    }
  }

  lemma {:induction false} CountZero(s: string, d: char)
    ensures Count(s, d) == 0 <==> d !in s
  {
    if s != [] {
      CountZero(s[1..], d);
      assert s == [s[0]] + s[1..];
    }
  }

  lemma CountNext(s: string, d: char, o: nat)
    requires o < |s|
    ensures Count(s[..o + 1], d) == Count(s[..o], d) + if s[o] == d then 1 else 0
  {
    assert s[..o + 1] == s[..o] + [s[o]];
    CountAppend(s[..o], [s[o]], d);
  }

  lemma {:induction false} CountMonotone(s: string, d: char, a: nat, b: nat)
    requires a <= b <= |s|
    ensures Count(s[..a], d) <= Count(s[..b], d)
  {
    assert s[..b] == s[..a] + s[a..b];
    CountAppend(s[..a], s[a..b], d);
  }

  /** The offset is that of the `index`-th delimiter, counting from 1 and not counting one that ends the
      string. */
  predicate IsToken(s: string, d: char, index: int, o: nat) {
    o + 1 < |s| && s[o] == d && Count(s[..o], d) + 1 == index
  }

  lemma TokenIsUnique(s: string, d: char, index: int, a: nat, b: nat)
    requires IsToken(s, d, index, a) && IsToken(s, d, index, b)
    ensures a == b
  {
    var lo, hi := if a < b then a else b, if a < b then b else a;
    CountNext(s, d, lo);
    if lo < hi {
      CountMonotone(s, d, lo + 1, hi);
    }
  }

  datatype Status = Success | Fail | InvalidParameter

  /** dm_utils_memtok finds the delimiter of that number exactly if there is one. */
  method Memtok(input: string, delimiter: char, index: int) returns (st: Status, offset: nat)
    ensures st == InvalidParameter <==> input == []
    ensures st == Success ==> IsToken(input, delimiter, index, offset)
    ensures st == Fail ==> forall o :: !IsToken(input, delimiter, index, o)
  {
    offset := 0;
    if |input| <= 0 {
      return InvalidParameter, offset;
    }
    var item_index, count := 0, 0;
    while item_index < |input|
      invariant item_index <= |input|
      invariant item_index < |input| ==> count == Count(input[..item_index], delimiter)
      invariant forall o: nat :: o < item_index ==> !IsToken(input, delimiter, index, o)
    {
      CountNext(input, delimiter, item_index);
      if input[item_index] == delimiter && item_index + 1 < |input| {
        count := count + 1;
        if count == index {
          return Success, item_index;
        }
      }
      item_index := item_index + 1;
    }
    return Fail, offset;
  }

  // ----- finding key and name -----

  /** The delimiters `startDeli`, `startDeli + 1` and `endDeli` of a topic. */
  predicate Cuts(uri: string, startDeli: int, endDeli: int, start: nat, slice: nat, end: nat) {
    && IsToken(uri, DELIMITER, startDeli, start) && IsToken(uri, DELIMITER, startDeli + 1, slice)
    && IsToken(uri, DELIMITER, endDeli, end)
    && start < slice < end
  }

  /** The key and the name stand between those delimiters. */
  ghost predicate Parses(uri: string, startDeli: int, endDeli: int, pk: string, dn: string) {
    exists start: nat, slice: nat, end: nat ::
      Cuts(uri, startDeli, endDeli, start, slice, end) && pk == uri[start + 1..slice] && dn == uri[slice + 1..end]
  }

  /** A topic has at most one reading. */
  lemma ParsesIsUnique(uri: string, i: int, j: int, pk: string, dn: string, pk2: string, dn2: string)
    requires Parses(uri, i, j, pk, dn) && Parses(uri, i, j, pk2, dn2)
    ensures pk == pk2 && dn == dn2
  {
    var s: nat, m: nat, e: nat :| Cuts(uri, i, j, s, m, e) && pk == uri[s + 1..m] && dn == uri[m + 1..e];
    var s2: nat, m2: nat, e2: nat :| Cuts(uri, i, j, s2, m2, e2) && pk2 == uri[s2 + 1..m2] && dn2 == uri[m2 + 1..e2];
    TokenIsUnique(uri, DELIMITER, i, s, s2);
    TokenIsUnique(uri, DELIMITER, i + 1, m, m2);
    TokenIsUnique(uri, DELIMITER, j, e, e2);
  }

  method UriParsePkdn(uri: string, startDeli: int, endDeli: int) returns (st: Status, pk: string, dn: string)
    requires endDeli > startDeli + 1
    ensures st == InvalidParameter <==> uri == []
    ensures st == Success ==> Parses(uri, startDeli, endDeli, pk, dn)
    ensures st == Fail ==> forall k, n :: !Parses(uri, startDeli, endDeli, k, n)
  {
    pk, dn := "", "";
    if uri == [] {
      return InvalidParameter, pk, dn;
    }
    var res, start := Memtok(uri, DELIMITER, startDeli);
    if res != Success {
      return Fail, pk, dn;
    }
    var slice;
    res, slice := Memtok(uri, DELIMITER, startDeli + 1);
    if res != Success {
      return Fail, pk, dn;
    }
    var end;
    res, end := Memtok(uri, DELIMITER, endDeli);
    if res != Success {
      return Fail, pk, dn;
    }
    LaterTokenIsBehind(uri, startDeli, start, startDeli + 1, slice);
    LaterTokenIsBehind(uri, startDeli + 1, slice, endDeli, end);
    assert Cuts(uri, startDeli, endDeli, start, slice, end);
    return Success, uri[start + 1..slice], uri[slice + 1..end];
  }

  lemma LaterTokenIsBehind(s: string, i: int, a: nat, j: int, b: nat)
    requires IsToken(s, DELIMITER, i, a) && IsToken(s, DELIMITER, j, b) && i < j
    ensures a < b
  {
    if b <= a {
      CountMonotone(s, DELIMITER, b, a);
    }
  }

  // ----- building a topic -----

  /** printf with string arguments: each conversion takes the next one. */
  function Format(fmt: string, args: seq<string>): string
    decreases |fmt|
  {
    if fmt == [] then []
    else if |fmt| >= 2 && fmt[0] == '%' && fmt[1] == 's' && args != [] then args[0] + Format(fmt[2..], args[1..])
    else [fmt[0]] + Format(fmt[1..], args)
  }

  lemma {:induction false} FormatPlain(lead: string, rest: string, args: seq<string>)
    requires '%' !in lead
    ensures Format(lead + rest, args) == lead + Format(rest, args)
  {
    if lead == [] {
      assert lead + rest == rest;
    } else {
      FormatPlain(lead[1..], rest, args);
      assert (lead + rest)[1..] == lead[1..] + rest;
      assert lead == [lead[0]] + lead[1..];
    }
  }

  /** The text fits in the buffer the program allocates for it. */
  lemma {:induction false} FormatFits(fmt: string, a: string, b: string)
    ensures |Format(fmt, [])| == |fmt| && |Format(fmt, [b])| <= |fmt| + |b|
    ensures |Format(fmt, [a, b])| <= |fmt| + |a| + |b|
    decreases |fmt|
  {
    if fmt != [] {
      FormatFits(fmt[1..], a, b);
      if |fmt| >= 2 {
        FormatFits(fmt[2..], a, b);
        assert [a, b][1..] == [b] && [b][1..] == [];
      }
    }
  }

  function ServiceName(prefix: Option<string>, name: Option<string>, pk: string, dn: string): string {
    (if prefix.Some? then Format(prefix.value, [pk, dn]) else []) + if name.Some? then name.value else []
  }

  function AddPrefix(prefix: string, uri: string): string {
    prefix + uri
  }

  lemma {:induction false} SysTopic(name: string, pk: string, dn: string)
    ensures ServiceName(Some(SYS_PREFIX), Some(name), pk, dn) == "/sys/" + pk + "/" + dn + "/" + name
  {
    hide Format;
    var args := [pk, dn];
    assert args[1..] == [dn] && [dn][1..] == [];
    assert SYS_PREFIX == "/sys/" + "%s/%s/";
    FormatPlain("/sys/", "%s/%s/", args);
    assert "%s/%s/" == "%s" + "/%s/" && "%s/" == "%s" + "/";
    FormatArg("/%s/", args);
    assert "/%s/" == "/" + "%s/";
    FormatPlain("/", "%s/", [dn]);
    FormatArg("/", [dn]);
    FormatPlain("/", "", []);
    assert "/" + "" == "/";
    FormatFits("", "", "");
    assert "/sys/" + (pk + ("/" + (dn + "/"))) == "/sys/" + pk + "/" + dn + "/";
  }

  lemma FormatArg(rest: string, args: seq<string>)
    requires args != []
    ensures Format("%s" + rest, args) == args[0] + Format(rest, args[1..])
  {
    assert ("%s" + rest)[2..] == rest;
  }

  // ----- there and back -----

  lemma PartIsSlashFree(uri: string, i: int, a: nat, b: nat)
    requires IsToken(uri, DELIMITER, i, a) && IsToken(uri, DELIMITER, i + 1, b) && a < b
    ensures DELIMITER !in uri[a + 1..b]
  {
    CountNext(uri, DELIMITER, a);
    assert uri[..b] == uri[..a + 1] + uri[a + 1..b];
    CountAppend(uri[..a + 1], uri[a + 1..b], DELIMITER);
    CountZero(uri[a + 1..b], DELIMITER);
  }

  /** A topic `lead/key/name/service` gives its key and name back exactly if neither holds a delimiter and
      the service is not empty: a delimiter at the very end does not count as one. */
  lemma PartsComeBackExactly(lead: string, deli: int, pk: string, dn: string, service: string)
    requires Count(lead, '/') + 1 == deli
    ensures Parses(lead + "/" + pk + "/" + dn + "/" + service, deli, deli + 2, pk, dn)
            <==> '/' !in pk && '/' !in dn && service != []
  {
    hide Count;
    var uri := lead + "/" + pk + "/" + dn + "/" + service;
    var a := |lead|;
    var b := a + 1 + |pk|;
    var c := b + 1 + |dn|;
    assert uri[a] == uri[b] == uri[c] == DELIMITER;
    assert uri[..a] == lead && uri[a + 1..b] == pk && uri[b + 1..c] == dn && |uri| == c + 1 + |service|;
    CountNext(uri, DELIMITER, a);
    CountNext(uri, DELIMITER, b);
    assert uri[..b] == uri[..a + 1] + pk && uri[..c] == uri[..b + 1] + dn;
    CountAppend(uri[..a + 1], pk, DELIMITER);
    CountAppend(uri[..b + 1], dn, DELIMITER);
    CountZero(pk, DELIMITER);
    CountZero(dn, DELIMITER);
    if DELIMITER !in pk && DELIMITER !in dn && service != [] {
      assert Cuts(uri, deli, deli + 2, a, b, c);
    }
    if Parses(uri, deli, deli + 2, pk, dn) {
      var s: nat, m: nat, e: nat :| Cuts(uri, deli, deli + 2, s, m, e) && pk == uri[s + 1..m] && dn == uri[m + 1..e];
      PartIsSlashFree(uri, deli, s, m);
      PartIsSlashFree(uri, deli + 1, m, e);
      assert IsToken(uri, DELIMITER, deli, a);
      TokenIsUnique(uri, DELIMITER, deli, s, a);
    }
  }

  /** The topics that the device subscribes to, as they are and with the prefix of the CoAP build. */
  lemma TopicRoundTrip(pk: string, dn: string, service: string)
    ensures var topic := ServiceName(Some(SYS_PREFIX), Some(service), pk, dn);
            && AddPrefix(COAP_PREFIX, topic) == "/topic/sys/" + pk + "/" + dn + "/" + service
            && (Parses(topic, 2, 4, pk, dn) <==> '/' !in pk && '/' !in dn && service != [])
            && (Parses(AddPrefix(COAP_PREFIX, topic), 3, 5, pk, dn) <==> '/' !in pk && '/' !in dn && service != [])
  {
    hide Parses, ServiceName, Count;
    SysTopic(service, pk, dn);
    assert "/sys/" == "/sys" + "/";
    Leads();
    PartsComeBackExactly("/sys", 2, pk, dn, service);
    PartsComeBackExactly("/topic/sys", 3, pk, dn, service);
    assert "/topic/sys" + "/" == "/topic/sys/";
    assert "/topic" + ("/sys" + "/" + pk + "/" + dn + "/" + service) == "/topic/sys" + "/" + pk + "/" + dn + "/" + service;
  }

  lemma Leads()
    ensures Count("/sys", '/') == 1 && Count("/topic/sys", '/') == 2
  {
    CountZero("sys", '/');
    CountZero("topic", '/');
    assert "/sys" == ['/'] + "sys" && "/topic/sys" == ['/'] + "topic" + "/sys";
    CountAppend(['/'], "sys", '/');
    CountAppend(['/'] + "topic", "/sys", '/');
    CountAppend(['/'], "topic", '/');
    assert Count(['/'], '/') == 1;
  }
}
