/** Machine integers of the C sources, and the sequence facts the codecs share.
    Shifts and masks of the sources are written as divisions and remainders. */
module Bytes {

  type byte = x: int | 0 <= x < 0x100
  type u16 = x: int | 0 <= x < 0x1_0000
  type u32 = x: int | 0 <= x < 0x1_0000_0000

  /** The 8-bit decrement. */
  function OneLess(count: byte): byte {
    (count - 1) % 0x100
  }

  datatype Option<+T> = None | Some(value: T)

  /** The number that the bytes are in network order. */
  function BigEndian(s: seq<byte>): nat {
    if s == [] then 0 else BigEndian(s[..|s| - 1]) * 0x100 + s[|s| - 1]
  }

  lemma ShortBigEndian(s: seq<byte>)
    ensures |s| == 0 ==> BigEndian(s) == 0
    ensures |s| == 1 ==> BigEndian(s) == s[0]
    ensures |s| == 2 ==> BigEndian(s) == s[0] as int * 0x100 + s[1]
    ensures |s| == 3 ==> BigEndian(s) == s[0] as int * 0x1_0000 + s[1] as int * 0x100 + s[2]
    ensures |s| == 4 ==> BigEndian(s) == s[0] as int * 0x100_0000 + s[1] as int * 0x1_0000 + s[2] as int * 0x100 + s[3]
  {
    if |s| > 0 {
      var a := s[..|s| - 1];
      assert BigEndian(s) == BigEndian(a) * 0x100 + s[|s| - 1];
      if |a| > 0 {
        var b := a[..|a| - 1];
        assert BigEndian(a) == BigEndian(b) * 0x100 + a[|a| - 1];
        if |b| > 0 {
          var c := b[..|b| - 1];
          assert BigEndian(b) == BigEndian(c) * 0x100 + b[|b| - 1];
          if |c| == 1 { assert c[..0] == [] && BigEndian(c) == BigEndian(c[..0]) * 0x100 + c[0]; }
        }
      }
    }
  }

  /** The string `s` stands in memory `mem` at position `pos`. */
  ghost predicate At(mem: seq<byte>, pos: nat, s: seq<byte>) {
    pos + |s| <= |mem| && mem[pos..pos + |s|] == s
  }

  lemma AtSplit(mem: seq<byte>, pos: nat, a: seq<byte>, b: seq<byte>)
    requires At(mem, pos, a + b)
    ensures At(mem, pos, a) && At(mem, pos + |a|, b)
  {
    var m := mem[pos..pos + |a + b|];
    assert m[..|a|] == a && m[|a|..] == b;
  }

  lemma AtIndex(mem: seq<byte>, pos: nat, s: seq<byte>, i: nat)
    requires At(mem, pos, s) && i < |s|
    ensures mem[pos + i] == s[i]
  {
    assert mem[pos..pos + |s|][i] == mem[pos + i];
  }

  lemma AtSlice(mem: seq<byte>, pos: nat, s: seq<byte>)
    requires At(mem, pos, s)
    ensures pos + |s| <= |mem| && mem[pos..pos + |s|] == s
  {
  }

  /** `s` was written over `before` at `pos`, and nothing else changed. */
  ghost predicate Wrote<T>(before: seq<T>, after: seq<T>, pos: nat, s: seq<T>) {
    && pos + |s| <= |before|
    && after == before[..pos] + s + before[pos + |s|..]
  }

  lemma WroteNothing<T>(d: seq<T>, pos: nat)
    requires pos <= |d|
    ensures Wrote(d, d, pos, [])
  {
  }

  lemma WroteFront<T>(before: seq<T>, after: seq<T>, s: seq<T>)
    requires |s| <= |before| && after == s + before[|s|..]
    ensures Wrote(before, after, 0, s)
  {
  }

  lemma WroteOne<T>(b0: seq<T>, b1: seq<T>, pos: nat, s: seq<T>, x: T)
    requires Wrote(b0, b1, pos, s) && pos + |s| < |b0|
    ensures |b1| == |b0| && Wrote(b0, b1[pos + |s| := x], pos, s + [x])
  {
  }

  lemma WroteBoth<T>(b0: seq<T>, b1: seq<T>, b2: seq<T>, pos: nat, s: seq<T>, t: seq<T>)
    requires Wrote(b0, b1, pos, s) && Wrote(b1, b2, pos + |s|, t)
    ensures Wrote(b0, b2, pos, s + t)
  {
    assert b1[..pos + |s|] == b0[..pos] + s;
    assert b1[pos + |s| + |t|..] == b0[pos + |s + t|..];
  }

  /** Where a walk over a list that it shortens stands: what it has kept, and what it has not seen. */
  ghost predicate Boundary<T>(list: seq<T>, done: seq<T>, l0: seq<T>, k: nat) {
    k <= |l0| && list == done + l0[k..]
  }

  lemma AtBoundary<T>(list: seq<T>, done: seq<T>, l0: seq<T>, k: nat)
    requires Boundary(list, done, l0, k)
    ensures |done| < |list| <==> k < |l0|
    ensures k < |l0| ==> list[|done|] == l0[k]
    ensures k == |l0| ==> list == done
  {
  }

  /** The element at the boundary is dropped, or kept as `x`. */
  lemma BoundaryMoves<T>(list: seq<T>, next: seq<T>, done: seq<T>, l0: seq<T>, k: nat, x: Option<T>)
    requires Boundary(list, done, l0, k) && k < |l0|
    requires next == list[..|done|] + (if x.Some? then [x.value] else []) + list[|done| + 1..]
    ensures Boundary(next, if x.Some? then done + [x.value] else done, l0, k + 1)
  {
    assert list[..|done|] == done && list[|done| + 1..] == l0[k + 1..];
  }
}
