/** Keys of array elements, "key[index]": built when an array is set, taken apart when one is looked up. */
module ArrayKeys {
  import opened Bytes

  const INDEX_CHARS := 9   // what snprintf leaves of a number in a buffer of 10
  const LIMIT := 1_000_000_000

  // ----- numbers as text -----

  function Digit(n: nat): (c: char)
    requires n < 10
    ensures '0' <= c <= '9' && c as int - '0' as int == n
  {
    '0' + n as char
  }

  function Decimal(n: nat): (s: string)
    ensures s != [] && forall i :: 0 <= i < |s| ==> '0' <= s[i] <= '9'
  {
    if n < 10 then [Digit(n)] else Decimal(n / 10) + [Digit(n % 10)]
  }

  /** dm_utils_itoa for a number that is not negative. */
  function Itoa(n: nat): string {
    var s := Decimal(n);
    if |s| <= INDEX_CHARS then s else s[..INDEX_CHARS]
  }

  predicate IsDigit(c: char) { '0' <= c <= '9' }
  predicate IsSpace(c: char) { c == ' ' || 9 <= c as int <= 13 }

  /** The value of the leading digits, continuing from `acc`. */
  function Leading(s: string, acc: nat): nat {
    if s == [] || !IsDigit(s[0]) then acc else Leading(s[1..], acc * 10 + (s[0] as int - '0' as int))
  }

  /** The C library's atoi. */
  function Atoi(s: string): int {
    if s != [] && IsSpace(s[0]) then Atoi(s[1..])
    else if s != [] && s[0] == '-' then 0 - Leading(s[1..], 0)
    else if s != [] && s[0] == '+' then Leading(s[1..], 0)
    else Leading(s, 0)
  }

  function Power(k: nat): nat {
    if k == 0 then 1 else 10 * Power(k - 1)
  }

  predicate AllDigits(s: string) {
    forall i :: 0 <= i < |s| ==> IsDigit(s[i])
  }

  lemma {:induction false} LeadingAppend(s: string, c: char, acc: nat)
    requires AllDigits(s) && IsDigit(c)
    ensures Leading(s + [c], acc) == Leading(s, acc) * 10 + (c as int - '0' as int)
  {
    if s == [] {
      assert s + [c] == [c] && [c][1..] == [];
    } else {
      assert (s + [c])[1..] == s[1..] + [c];
      LeadingAppend(s[1..], c, acc * 10 + (s[0] as int - '0' as int));
    }
  }

  lemma {:induction false} LeadingBelow(s: string)
    requires AllDigits(s)
    ensures Leading(s, 0) < Power(|s|)
    decreases |s|
  {
    if s != [] {
      var init, c := s[..|s| - 1], s[|s| - 1];
      assert s == init + [c];
      LeadingBelow(init);
      LeadingAppend(init, c, 0);
    }
  }

  /** Reading the digits gives the number back. */
  lemma {:induction false} AtoiDecimal(n: nat)
    ensures Atoi(Decimal(n)) == n == Leading(Decimal(n), 0)
  {
    var s := Decimal(n);
    if n < 10 {
      assert s == [Digit(n)] && s[1..] == [];
      assert Leading(s, 0) == Leading([], n);
    } else {
      AtoiDecimal(n / 10);
      LeadingAppend(Decimal(n / 10), Digit(n % 10), 0);
    }
    assert !IsSpace(s[0]) && s[0] != '-' && s[0] != '+';
  }

  lemma {:induction false} DecimalLength(n: nat, k: nat)
    requires k > 0
    ensures |Decimal(n)| <= k <==> n < Power(k)
    decreases k
  {
    if n >= 10 {
      if k == 1 {
      } else {
        DecimalLength(n / 10, k - 1);
        assert n / 10 < Power(k - 1) <==> n < 10 * Power(k - 1);
      }
    } else {
      PowerPositive(k - 1);
    }
  }

  lemma {:induction false} PowerPositive(k: nat)
    ensures Power(k) > 0
  {
    if k > 0 { PowerPositive(k - 1); }
  }

  lemma PowerNine()
    ensures Power(INDEX_CHARS) == LIMIT
  {
    assert Power(3) == 1000;
    assert Power(6) == 1000 * Power(3);
    assert Power(9) == 1000 * Power(6);
  }

  /** A number survives its way through text exactly if it has at most nine digits. */
  lemma AtoiItoaExactly(n: nat)
    ensures Atoi(Itoa(n)) == n <==> n < 1_000_000_000
    ensures AllDigits(Itoa(n)) && Itoa(n) != []
  {
    AtoiDecimal(n);
    PowerNine();
    DecimalLength(n, INDEX_CHARS);
    if |Decimal(n)| > INDEX_CHARS {
      LeadingBelow(Itoa(n));
      assert !IsSpace(Itoa(n)[0]);
    }
  }

  /** A number of ten digits loses its last one. */
  lemma TenDigitsLoseOne(n: nat)
    requires 1_000_000_000 <= n < 10_000_000_000
    ensures Atoi(Itoa(n)) == n / 10
  {
    PowerNine();
    assert Power(INDEX_CHARS + 1) == 10 * LIMIT;
    DecimalLength(n, INDEX_CHARS);
    DecimalLength(n, INDEX_CHARS + 1);
    assert Decimal(n) == Decimal(n / 10) + [Digit(n % 10)];
    assert Itoa(n) == Decimal(n / 10);
    AtoiDecimal(n / 10);
  }

  /** The number that decimal digits stand for. */
  function Positional(s: string): nat
    requires AllDigits(s)
  {
    if s == [] then 0 else Positional(s[..|s| - 1]) * 10 + (s[|s| - 1] as int - '0' as int)
  }

  lemma {:induction false} LeadingIsPositional(s: string, rest: string)
    requires AllDigits(s) && (rest == [] || !('0' <= rest[0] <= '9'))
    ensures Leading(s + rest, 0) == Positional(s)
    decreases |s|
  {
    LeadingStops(s, rest, 0);
    if s != [] {
      var init, c := s[..|s| - 1], s[|s| - 1];
      assert s == init + [c];
      LeadingIsPositional(init, []);
      assert init + [] == init;
      LeadingAppend(init, c, 0);
    }
  }

  lemma {:induction false} LeadingStops(s: string, rest: string, acc: nat)
    requires AllDigits(s) && (rest == [] || !('0' <= rest[0] <= '9'))
    ensures Leading(s + rest, acc) == Leading(s, acc)
  {
    if s == [] {
      assert s + rest == rest;
    } else {
      assert (s + rest)[1..] == s[1..] + rest;
      LeadingStops(s[1..], rest, acc * 10 + (s[0] as int - '0' as int));
    }
  }

  /** White space, a sign, digits, and anything that does not go on with a digit: the number with its sign. */
  lemma {:induction false} AtoiReads(space: string, s: string, rest: string)
    requires forall i :: 0 <= i < |space| ==> space[i] == ' ' || 9 <= space[i] as int <= 13
    requires s != [] && AllDigits(s) && (rest == [] || !('0' <= rest[0] <= '9'))
    ensures Atoi(space + (s + rest)) == Atoi(space + ("+" + (s + rest))) == Positional(s)
    ensures Atoi(space + ("-" + (s + rest))) == -(Positional(s) as int)
  {
    hide Atoi, Positional;
    var t := s + rest;
    if space == [] {
      AtoiOfDigits(s, rest);
      assert [] + t == t && [] + ("+" + t) == "+" + t && [] + ("-" + t) == "-" + t;
    } else {
      AtoiReads(space[1..], s, rest);
      AtoiSkips(space, t);
      AtoiSkips(space, "+" + t);
      AtoiSkips(space, "-" + t);
    }
  }

  lemma AtoiSkips(space: string, t: string)
    requires space != [] && IsSpace(space[0])
    ensures Atoi(space + t) == Atoi(space[1..] + t)
  {
    assert (space + t)[1..] == space[1..] + t;
  }

  lemma AtoiOfDigits(s: string, rest: string)
    requires s != [] && AllDigits(s) && (rest == [] || !('0' <= rest[0] <= '9'))
    ensures Atoi(s + rest) == Atoi("+" + (s + rest)) == Positional(s)
    ensures Atoi("-" + (s + rest)) == -(Positional(s) as int)
  {
    hide Leading, Positional;
    LeadingIsPositional(s, rest);
    var t := s + rest;
    assert t[0] == s[0] && IsDigit(s[0]);
    assert ("+" + t)[0] == '+' && ("+" + t)[1..] == t && ("-" + t)[0] == '-' && ("-" + t)[1..] == t;
  }

  /** The text of a number below 10^9 is its decimal digits, without a zero in front. */
  lemma ItoaWrites(n: nat)
    requires n < 1_000_000_000
    ensures AllDigits(Itoa(n)) && Itoa(n) != [] && Positional(Itoa(n)) == n
    ensures n > 0 ==> Itoa(n)[0] != '0'
  {
    AtoiItoaExactly(n);
    AtoiDecimal(n);
    PowerNine();
    DecimalLength(n, INDEX_CHARS);
    LeadingIsPositional(Itoa(n), []);
    assert Itoa(n) + [] == Itoa(n);
    NoZeroInFront(n);
  }

  lemma {:induction false} NoZeroInFront(n: nat)
    ensures n > 0 ==> Decimal(n)[0] != '0'
  {
    if n >= 10 { NoZeroInFront(n / 10); }
  }

  // ----- taking a key apart -----

  datatype Parsed = Parsed(partialLen: nat, arrayLen: nat, index: int) | Failed | InvalidParameter

  predicate NoBracket(s: string) {
    forall i :: 0 <= i < |s| ==> s[i] != '[' && s[i] != ']'
  }

  function FirstOpen(s: string): (p: nat)
    ensures p <= |s| && (p < |s| ==> s[p] == '[')
    ensures forall i :: 0 <= i < p ==> s[i] != '['
  {
    if s == [] || s[0] == '[' then 0 else 1 + FirstOpen(s[1..])
  }

  /** The string is a key, an index text in brackets, and nothing else; `p` is where the bracket opens. */
  predicate IsIndexed(s: string, p: nat) {
    && p + 2 < |s| && s[p] == '[' && s[|s| - 1] == ']'
    && NoBracket(s[..p]) && NoBracket(s[p + 1..|s| - 1])
  }

  function ArrayIndex(s: string): Parsed {
    var p := FirstOpen(s);
    if |s| <= 1 then InvalidParameter
    else if IsIndexed(s, p) then Parsed(p, |s|, Atoi(s[p + 1..|s| - 1]))
    else Failed
  }

  /** What the loop knows after `i` characters: how deep it is, and where the first brackets stood. */
  ghost predicate Scanned(s: string, i: nat, deep: int, pre: Option<nat>, suf: Option<nat>) {
    && i <= |s| && (deep == 0 || deep == 1)
    && (pre.None? ==> deep == 0 && suf.None? && NoBracket(s[..i]))
    && (pre.Some? ==> pre.value < i && s[pre.value] == '[' && NoBracket(s[..pre.value]))
    && (pre.Some? && suf.None? ==> deep == 1 && NoBracket(s[pre.value + 1..i]))
    && (suf.Some? ==> pre.Some? && pre.value + 1 < suf.value < i && s[suf.value] == ']'
                      && NoBracket(s[pre.value + 1..suf.value]))
  }

  lemma NoBracketAt(s: string, a: nat, b: nat, k: nat)
    requires a <= k < b <= |s| && NoBracket(s[a..b])
    ensures s[k] != '[' && s[k] != ']'
  {
    assert s[a..b][k - a] == s[k];
  }

  lemma NoBracketSnoc(s: string, a: nat, b: nat)
    requires a <= b < |s| && NoBracket(s[a..b]) && s[b] != '[' && s[b] != ']'
    ensures NoBracket(s[a..b + 1])
  {
    assert s[a..b + 1] == s[a..b] + [s[b]];
  }

  /** A bracket out of place rules the form out. */
  lemma NotIndexed(s: string, k: nat)
    requires k < |s|
    requires (s[k] == '[' && FirstOpen(s) < k) || (s[k] == ']' && (k <= FirstOpen(s) + 1 || k < |s| - 1))
    ensures !IsIndexed(s, FirstOpen(s))
  {
    hide NoBracket;
    var p := FirstOpen(s);
    if IsIndexed(s, p) {
      if k < p {
        NoBracketAt(s, 0, p, k);
      } else if p < k < |s| - 1 {
        NoBracketAt(s, p + 1, |s| - 1, k);
      }
    }
  }

  lemma OpenIs(s: string, i: nat, deep: int, pre: Option<nat>, suf: Option<nat>)
    requires Scanned(s, i, deep, pre, suf)
    ensures pre.Some? ==> FirstOpen(s) == pre.value
    ensures pre.None? ==> FirstOpen(s) >= i
  {
    hide NoBracket;
    var p := FirstOpen(s);
    var end := if pre.Some? then pre.value else i;
    if p < end {
      NoBracketAt(s, 0, end, p);
    }
  }

  lemma OpenStep(s: string, i: nat, deep: int, pre: Option<nat>, suf: Option<nat>)
    requires Scanned(s, i, deep, pre, suf) && i < |s| && s[i] == '['
    ensures if deep != 0 then !IsIndexed(s, FirstOpen(s))
            else Scanned(s, i + 1, 1, if pre.None? then Some(i) else pre, suf)
  {
    OpenIs(s, i, deep, pre, suf);
    if deep != 0 {
      NotIndexed(s, i);
    } else if pre.None? {
      assert s[i + 1..i + 1] == [];
    }
  }

  lemma CloseStep(s: string, i: nat, deep: int, pre: Option<nat>, suf: Option<nat>)
    requires Scanned(s, i, deep, pre, suf) && i < |s| && s[i] == ']'
    ensures deep == 1 ==> i > 0
    ensures if deep != 1 || s[i - 1] == '[' then !IsIndexed(s, FirstOpen(s))
            else Scanned(s, i + 1, 0, pre, if suf.None? then Some(i) else suf)
  {
    hide NoBracket, IsIndexed;
    OpenIs(s, i, deep, pre, suf);
    if suf.Some? {
      NotIndexed(s, suf.value);
    } else if deep != 1 {
      NotIndexed(s, i);
    } else if s[i - 1] == '[' {
      if pre.value + 1 < i {
        NoBracketAt(s, pre.value + 1, i, i - 1);
      }
      NotIndexed(s, i);
    }
  }

  lemma OtherStep(s: string, i: nat, deep: int, pre: Option<nat>, suf: Option<nat>)
    requires Scanned(s, i, deep, pre, suf) && i < |s| && s[i] != '[' && s[i] != ']'
    ensures Scanned(s, i + 1, deep, pre, suf)
  {
    hide NoBracket;
    if suf.None? {
      NoBracketSnoc(s, if pre.None? then 0 else pre.value + 1, i);
    }
  }

  lemma EndStep(s: string, deep: int, pre: Option<nat>, suf: Option<nat>)
    requires Scanned(s, |s|, deep, pre, suf) && |s| > 1
    ensures pre.Some? && suf.Some? ==> pre.value + 1 < suf.value < |s|
    ensures ArrayIndex(s) == if pre.Some? && suf.Some? && suf.value + 1 == |s|
                             then Parsed(pre.value, suf.value + 1, Atoi(s[pre.value + 1..suf.value]))
                             else Failed
  {
    hide NoBracket, Atoi;
    OpenIs(s, |s|, deep, pre, suf);
    if suf.Some? && suf.value + 1 < |s| {
      NotIndexed(s, suf.value);
    }
    if pre.Some? && suf.None? && pre.value + 1 < |s| {
      NoBracketAt(s, pre.value + 1, |s|, |s| - 1);
    }
  }

  lemma Unbracketed(s: string)
    requires '[' !in s && ']' !in s
    ensures NoBracket(s)
  {
  }

  lemma OpensAt(s: string, p: nat)
    requires p < |s| && s[p] == '[' && NoBracket(s[..p])
    ensures FirstOpen(s) == p
  {
    assert forall i :: 0 <= i < p ==> s[i] == s[..p][i];
  }

  /** A key followed by one bracketed text, none of which holds another bracket, comes apart there. */
  lemma ArrayIndexReads(k: string, x: string)
    requires x != [] && '[' !in k && ']' !in k && '[' !in x && ']' !in x
    ensures ArrayIndex(k + "[" + x + "]") == Parsed(|k|, |k| + |x| + 2, Atoi(x))
  {
    hide Atoi, NoBracket;
    var s := k + "[" + x + "]";
    Unbracketed(k);
    Unbracketed(x);
    assert s[|k|] == '[' && s[|s| - 1] == ']';
    assert s[..|k|] == k;
    assert s[|k| + 1..|s| - 1] == x;
    OpensAt(s, |k|);
  }

  /** And nothing else does. */
  lemma ArrayIndexRefuses(s: string)
    requires ArrayIndex(s).Parsed?
    ensures var p := ArrayIndex(s).partialLen;
            && p + 2 < |s| && s == s[..p] + "[" + s[p + 1..|s| - 1] + "]"
            && '[' !in s[..p] && ']' !in s[..p] && '[' !in s[p + 1..|s| - 1] && ']' !in s[p + 1..|s| - 1]
  {
    var p := ArrayIndex(s).partialLen;
    assert s == s[..p] + [s[p]] + s[p + 1..|s| - 1] + [s[|s| - 1]];
  }

  method StrarrIndex(input: string) returns (r: Parsed)
    ensures r == ArrayIndex(input)
  {
    hide Scanned, IsIndexed, FirstOpen, Atoi;
    if |input| <= 1 {
      return InvalidParameter;
    }
    var index, deep := 0, 0;
    var pre: Option<nat>, suf: Option<nat> := None, None;
    ScanStarts(input);
    while index < |input|
      invariant index <= |input| && Scanned(input, index, deep, pre, suf)
    {
      if input[index] == '[' {
        OpenStep(input, index, deep, pre, suf);
        if deep != 0 {
          return Failed;
        }
        deep := deep + 1;
        if pre.None? {
          pre := Some(index);
        }
      } else if input[index] == ']' {
        CloseStep(input, index, deep, pre, suf);
        if deep != 1 {
          return Failed;
        }
        deep := deep - 1;
        if input[index - 1] == '[' {
          return Failed;
        }
        if suf.None? {
          suf := Some(index);
        }
      } else {
        OtherStep(input, index, deep, pre, suf);
      }
      index := index + 1;
    }
    EndStep(input, deep, pre, suf);
    if pre.Some? && suf.Some? && suf.value + 1 == |input| {
      return Parsed(pre.value, suf.value + 1, Atoi(input[pre.value + 1..suf.value]));
    }
    return Failed;
  }

  lemma ScanStarts(s: string)
    ensures Scanned(s, 0, 0, None, None)
  {
  }

  // ----- there and back -----

  /** The key that _dm_msg_set_array makes for one element. */
  function ArrayKey(key: Option<string>, n: nat): string {
    (if key.Some? then key.value else []) + "[" + Itoa(n) + "]"
  }

  /** The key of an element is taken apart into the key of the array and the index exactly if the key of
      the array has no brackets, as it has when arrays are nested, and the index has at most nine digits. */
  lemma ArrayKeyRoundTrip(key: Option<string>, n: nat)
    ensures var k := if key.Some? then key.value else [];
            ArrayIndex(ArrayKey(key, n)) == Parsed(|k|, |ArrayKey(key, n)|, n) <==> '[' !in k && ']' !in k && n < 1_000_000_000
  {
    hide Itoa, Atoi;
    var k := if key.Some? then key.value else [];
    var s := ArrayKey(key, n);
    var p := FirstOpen(s);
    AtoiItoaExactly(n);
    assert s[|k|] == '[' && s[..|k|] == k && s[|k| + 1..|s| - 1] == Itoa(n) && s[|s| - 1] == ']';
    if NoBracket(k) {
      assert p == |k|;
      assert NoBracket(Itoa(n));
    }
  }
}
