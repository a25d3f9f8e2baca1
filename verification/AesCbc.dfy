/** AES-CBC framing over an abstract block cipher: the per-block loop of the crypto wrapper (NIST
    SP 800-38A section 6.2), the padding (RFC 5652 section 6.3), and the two framings of the SDK, one
    chained throughout, one whose last block starts from the initialisation vector again. */
module AesCbc {
  import opened Bytes

  type bytes = seq<bv8>

  /** A block cipher; the key schedule is part of the two functions. */
  datatype Cipher = Cipher(enc: (bytes, bytes) -> bytes, dec: (bytes, bytes) -> bytes)

  /** All that is assumed: blocks stay blocks and decryption undoes encryption. */
  ghost predicate Lawful(c: Cipher) {
    && (forall k, b {:trigger c.enc(k, b)} :: |b| == 16 ==> |c.enc(k, b)| == 16 && c.dec(k, c.enc(k, b)) == b)
    && (forall k, b {:trigger c.dec(k, b)} :: |b| == 16 ==> |c.dec(k, b)| == 16)
  }

  function Xor(a: bytes, b: bytes): (r: bytes)
    requires |a| == |b| == 16
    ensures |r| == 16
  {
    seq(16, i requires 0 <= i < 16 => a[i] ^ b[i])
  }

  lemma XorTwice(a: bytes, b: bytes)
    requires |a| == |b| == 16
    ensures Xor(Xor(a, b), b) == a
  {
  }

  // ----- CBC as one operation -----

  ghost function Encrypt(c: Cipher, k: bytes, iv: bytes, p: bytes): (ct: bytes)
    requires Lawful(c) && |iv| == 16 && |p| % 16 == 0
    ensures |ct| == |p|
    decreases |p|
  {
    if p == [] then []
    else var b := c.enc(k, Xor(p[..16], iv)); b + Encrypt(c, k, b, p[16..])
  }

  ghost function Decrypt(c: Cipher, k: bytes, iv: bytes, ct: bytes): (p: bytes)
    requires Lawful(c) && |iv| == 16 && |ct| % 16 == 0
    ensures |p| == |ct|
    decreases |ct|
  {
    if ct == [] then []
    else Xor(c.dec(k, ct[..16]), iv) + Decrypt(c, k, ct[..16], ct[16..])
  }

  /** The vector left behind: the last cipher block. */
  function LastBlock(iv: bytes, ct: bytes): (r: bytes)
    requires |iv| == 16 && |ct| % 16 == 0
    ensures |r| == 16
  {
    if ct == [] then iv else ct[|ct| - 16..]
  }

  lemma {:induction false} CbcRoundTrip(c: Cipher, k: bytes, iv: bytes, p: bytes)
    requires Lawful(c) && |iv| == 16 && |p| % 16 == 0
    ensures Decrypt(c, k, iv, Encrypt(c, k, iv, p)) == p
    decreases |p|
  {
    if p != [] {
      var b := c.enc(k, Xor(p[..16], iv));
      var ct := Encrypt(c, k, iv, p);
      assert ct[..16] == b && ct[16..] == Encrypt(c, k, b, p[16..]);
      XorTwice(p[..16], iv);
      CbcRoundTrip(c, k, b, p[16..]);
      assert p == p[..16] + p[16..];
    }
  }

  lemma LastBlockCons(iv: bytes, b: bytes, rest: bytes)
    requires |iv| == |b| == 16 && |rest| % 16 == 0
    ensures LastBlock(iv, b + rest) == LastBlock(b, rest)
  {
  }

  lemma EncryptCons(c: Cipher, k: bytes, iv: bytes, p: bytes, q: bytes)
    requires Lawful(c) && |iv| == |p| == 16 && |q| % 16 == 0
    ensures var b := c.enc(k, Xor(p, iv)); |b| == 16 && Encrypt(c, k, iv, p + q) == b + Encrypt(c, k, b, q)
  {
    assert (p + q)[..16] == p && (p + q)[16..] == q;
  }

  lemma DecryptCons(c: Cipher, k: bytes, iv: bytes, ct: bytes, du: bytes)
    requires Lawful(c) && |iv| == |ct| == 16 && |du| % 16 == 0
    ensures Decrypt(c, k, iv, ct + du) == Xor(c.dec(k, ct), iv) + Decrypt(c, k, ct, du)
  {
    assert (ct + du)[..16] == ct && (ct + du)[16..] == du;
  }

  lemma NoBlocks(c: Cipher, k: bytes, iv: bytes)
    requires Lawful(c) && |iv| == 16
    ensures Encrypt(c, k, iv, []) == [] && Decrypt(c, k, iv, []) == [] && LastBlock(iv, []) == iv
  {
  }

  lemma {:induction false} EncryptAppend(c: Cipher, k: bytes, iv: bytes, p: bytes, q: bytes)
    requires Lawful(c) && |iv| == 16 && |p| % 16 == 0 && |q| % 16 == 0
    ensures Encrypt(c, k, iv, p + q)
         == Encrypt(c, k, iv, p) + Encrypt(c, k, LastBlock(iv, Encrypt(c, k, iv, p)), q)
    decreases |p|
  {
    hide Encrypt, LastBlock, Xor;
    if p == [] {
      NoBlocks(c, k, iv);
      assert p + q == q && [] + Encrypt(c, k, iv, q) == Encrypt(c, k, iv, q);
    } else {
      var first, rest := p[..16], p[16..];
      var b := c.enc(k, Xor(first, iv));
      assert p == first + rest && first + rest + q == first + (rest + q);
      EncryptCons(c, k, iv, first, rest);
      EncryptCons(c, k, iv, first, rest + q);
      EncryptAppend(c, k, b, rest, q);
      LastBlockCons(iv, b, Encrypt(c, k, b, rest));
    }
  }

  lemma {:induction false} DecryptAppend(c: Cipher, k: bytes, iv: bytes, ct: bytes, du: bytes)
    requires Lawful(c) && |iv| == 16 && |ct| % 16 == 0 && |du| % 16 == 0
    ensures Decrypt(c, k, iv, ct + du) == Decrypt(c, k, iv, ct) + Decrypt(c, k, LastBlock(iv, ct), du)
    decreases |ct|
  {
    hide Decrypt, LastBlock, Xor, Lawful;
    if ct == [] {
      NoBlocks(c, k, iv);
      assert ct + du == du && [] + Decrypt(c, k, iv, du) == Decrypt(c, k, iv, du);
    } else {
      var first, rest := ct[..16], ct[16..];
      assert ct == first + rest && first + rest + du == first + (rest + du);
      DecryptCons(c, k, iv, first, rest);
      DecryptCons(c, k, iv, first, rest + du);
      DecryptAppend(c, k, first, rest, du);
      LastBlockCons(iv, first, rest);
    }
  }

  /** One more block of a longer text. */
  lemma OneMoreBlock(c: Cipher, k: bytes, iv: bytes, src: bytes, i: nat)
    requires Lawful(c) && |iv| == 16 && 16 * i + 16 <= |src|
    ensures var done, b := src[..16 * i], src[16 * i..16 * i + 16];
            && Encrypt(c, k, iv, src[..16 * (i + 1)]) == Encrypt(c, k, iv, done) + Encrypt(c, k, LastBlock(iv, Encrypt(c, k, iv, done)), b)
            && Decrypt(c, k, iv, src[..16 * (i + 1)]) == Decrypt(c, k, iv, done) + Decrypt(c, k, LastBlock(iv, done), b)
            && LastBlock(iv, src[..16 * (i + 1)]) == b
  {
    hide Encrypt, Decrypt, Lawful;
    var done, b := src[..16 * i], src[16 * i..16 * i + 16];
    assert src[..16 * (i + 1)] == done + b;
    EncryptAppend(c, k, iv, done, b);
    DecryptAppend(c, k, iv, done, b);
    assert (done + b)[|done + b| - 16..] == b;
  }

  lemma LastOfAppended(iv: bytes, ct: bytes, b: bytes)
    requires |iv| == |b| == 16 && |ct| % 16 == 0
    ensures LastBlock(iv, ct + b) == b
  {
  }

  // ----- padding -----

  function PadLength(m: bytes): (pad: nat)
    ensures 1 <= pad <= 16 && (|m| + pad) % 16 == 0
  {
    16 - |m| % 16
  }

  function Padding(m: bytes): (r: bytes)
    ensures |r| == PadLength(m)
  {
    seq(PadLength(m), _ => PadLength(m) as bv8)
  }

  function Pad(m: bytes): bytes { m + Padding(m) }

  /** What the decrypting side takes for the message: all but as many bytes as the last byte says. */
  predicate Unpaddable(p: bytes) {
    p != [] && p[|p| - 1] as int <= |p|
  }

  function Unpad(p: bytes): bytes
    requires Unpaddable(p)
  {
    p[..|p| - p[|p| - 1] as int]
  }

  lemma SmallByte(n: nat)
    requires n <= 16
    ensures n as bv8 as int == n
  {
  }

  lemma UnpadPad(m: bytes)
    ensures Unpaddable(Pad(m)) && Unpad(Pad(m)) == m
  {
    var p, n := Pad(m), PadLength(m);
    assert p[|p| - 1] == Padding(m)[n - 1];
    SmallByte(n);
    assert p[..|m|] == m;
  }

  // ----- the two framings -----

  /** The full blocks of the message, and the padded rest, which is one block. */
  function Full(m: bytes): bytes { m[..|m| - |m| % 16] }
  function LastPadded(m: bytes): (r: bytes)
    ensures |r| == 16
  {
    m[|m| - |m| % 16..] + Padding(m)
  }

  lemma PadSplits(m: bytes)
    ensures Pad(m) == Full(m) + LastPadded(m)
  {
  }

  /** The cloud framing: CBC over the padded message. */
  ghost function Chained(c: Cipher, k: bytes, iv: bytes, m: bytes): bytes
    requires Lawful(c) && |iv| == 16
  {
    Encrypt(c, k, iv, Pad(m))
  }

  /** The local framing: the padded last block starts from the vector again. */
  ghost function Restarted(c: Cipher, k: bytes, iv: bytes, m: bytes): bytes
    requires Lawful(c) && |iv| == 16
  {
    Encrypt(c, k, iv, Full(m)) + Encrypt(c, k, iv, LastPadded(m))
  }

  ghost function RestartedPlain(c: Cipher, k: bytes, iv: bytes, ct: bytes): (p: bytes)
    requires Lawful(c) && |iv| == 16 && |ct| % 16 == 0 && |ct| > 0
    ensures |p| == |ct|
  {
    Decrypt(c, k, iv, ct[..|ct| - 16]) + Decrypt(c, k, iv, ct[|ct| - 16..])
  }

  /** For any invertible cipher, key, vector and message, decryption gives the message back. */
  lemma ChainedRoundTrip(c: Cipher, k: bytes, iv: bytes, m: bytes)
    requires Lawful(c) && |iv| == 16
    ensures var ct := Chained(c, k, iv, m);
            && |ct| == |m| - |m| % 16 + 16
            && Unpaddable(Decrypt(c, k, iv, ct)) && Unpad(Decrypt(c, k, iv, ct)) == m
  {
    CbcRoundTrip(c, k, iv, Pad(m));
    UnpadPad(m);
  }

  lemma RestartedRoundTrip(c: Cipher, k: bytes, iv: bytes, m: bytes)
    requires Lawful(c) && |iv| == 16
    ensures var ct := Restarted(c, k, iv, m);
            && |ct| == |m| - |m| % 16 + 16
            && Unpaddable(RestartedPlain(c, k, iv, ct)) && Unpad(RestartedPlain(c, k, iv, ct)) == m
  {
    var ct := Restarted(c, k, iv, m);
    assert ct[..|ct| - 16] == Encrypt(c, k, iv, Full(m)) && ct[|ct| - 16..] == Encrypt(c, k, iv, LastPadded(m));
    CbcRoundTrip(c, k, iv, Full(m));
    CbcRoundTrip(c, k, iv, LastPadded(m));
    PadSplits(m);
    UnpadPad(m);
  }

  /** One block, encrypted. */
  lemma OneBlock(c: Cipher, k: bytes, iv: bytes, b: bytes)
    requires Lawful(c) && |iv| == 16 && |b| == 16
    ensures Encrypt(c, k, iv, b) == c.enc(k, Xor(b, iv)) && Decrypt(c, k, iv, b) == Xor(c.dec(k, b), iv)
  {
    assert b[..16] == b && b[16..] == [];
  }

  /** The two framings agree on a message exactly when it is shorter than a block or its last full
      cipher block happens to be the vector itself. */
  lemma FramingsAgree(c: Cipher, k: bytes, iv: bytes, m: bytes)
    requires Lawful(c) && |iv| == 16
    ensures Chained(c, k, iv, m) == Restarted(c, k, iv, m)
       <==> LastBlock(iv, Encrypt(c, k, iv, Full(m))) == iv
    ensures |m| < 16 ==> Chained(c, k, iv, m) == Restarted(c, k, iv, m)
  {
    var full, last := Encrypt(c, k, iv, Full(m)), LastPadded(m);
    var v := LastBlock(iv, full);
    PadSplits(m);
    EncryptAppend(c, k, iv, Full(m), last);
    OneBlock(c, k, v, last);
    OneBlock(c, k, iv, last);
    if Chained(c, k, iv, m) == Restarted(c, k, iv, m) {
      assert c.enc(k, Xor(last, v)) == Chained(c, k, iv, m)[|full|..] == c.enc(k, Xor(last, iv));
      assert Xor(last, v) == c.dec(k, c.enc(k, Xor(last, iv))) == Xor(last, iv);
      XorCancels(last, v, iv);
    }
  }

  lemma XorBack(a: bytes, b: bytes)
    requires |a| == |b| == 16
    ensures Xor(a, Xor(a, b)) == b
  {
  }

  lemma XorCancels(a: bytes, b: bytes, d: bytes)
    requires |a| == |b| == |d| == 16 && Xor(a, b) == Xor(a, d)
    ensures b == d
  {
    hide Xor;
    XorBack(a, b);
    XorBack(a, d);
  }

  // ----- the crypto wrapper -----

  method CopyInto(dst: array<bv8>, pos: nat, s: bytes)
    requires pos + |s| <= dst.Length
    modifies dst
    ensures Wrote(old(dst[..]), dst[..], pos, s)
  {
    forall i | 0 <= i < |s| { dst[pos + i] := s[i]; }
  }

  class Aes {
    const cipher: Cipher
    const key: bytes
    var iv: bytes

    ghost predicate Valid()
      reads this
    {
      Lawful(cipher) && |iv| == 16
    }

    constructor Init(c: Cipher, k: bytes, v: bytes)
      requires Lawful(c) && |v| == 16
      ensures Valid() && cipher == c && key == k && iv == v
    {
      cipher, key, iv := c, k, v;
    }

    /** The library call on one block: it updates the vector. */
    method CryptBlock(encrypt: bool, block: bytes) returns (r: bytes)
      requires Valid() && |block| == 16
      modifies this
      ensures Valid() && iv == if encrypt then r else block
      ensures r == if encrypt then Encrypt(cipher, key, old(iv), block) else Decrypt(cipher, key, old(iv), block)
    {
      OneBlock(cipher, key, iv, block);
      if encrypt {
        r := cipher.enc(key, Xor(block, iv));
        iv := r;
      } else {
        r := Xor(cipher.dec(key, block), iv);
        iv := block;
      }
    }

    /** The per-block loop is CBC over all the blocks, and leaves the last cipher block as the vector. */
    method CbcEncrypt(src: bytes, blockNum: nat, dst: array<bv8>, pos: nat)
      requires Valid() && 16 * blockNum <= |src| && pos + 16 * blockNum <= dst.Length
      modifies this, dst
      ensures Valid()
      ensures var ct := Encrypt(cipher, key, old(iv), src[..16 * blockNum]);
              Wrote(old(dst[..]), dst[..], pos, ct) && iv == LastBlock(old(iv), ct)
    {
      hide Wrote, Lawful, Encrypt, LastBlock;
      ghost var d0, iv0 := dst[..], iv;
      ghost var ct: bytes := [];
      NoBlocks(cipher, key, iv);
      assert src[..0] == [];
      assert Wrote(d0, dst[..], pos, ct) by { WroteNothing(d0, pos); }
      var i := 0;
      while i < blockNum
        invariant i <= blockNum && Valid()
        invariant ct == Encrypt(cipher, key, iv0, src[..16 * i]) && |ct| == 16 * i
        invariant iv == LastBlock(iv0, ct) && Wrote(d0, dst[..], pos, ct)
      {
        ghost var d1, b := dst[..], src[16 * i..16 * i + 16];
        var r := CryptBlock(true, src[16 * i..16 * i + 16]);
        CopyInto(dst, pos + 16 * i, r);
        WroteBoth(d0, d1, dst[..], pos, ct, r);
        OneMoreBlock(cipher, key, iv0, src, i);
        LastOfAppended(iv0, ct, r);
        ct := ct + r;
        i := i + 1;
      }
    }

    method CbcDecrypt(src: bytes, blockNum: nat, dst: array<bv8>, pos: nat)
      requires Valid() && 16 * blockNum <= |src| && pos + 16 * blockNum <= dst.Length
      modifies this, dst
      ensures Valid()
      ensures Wrote(old(dst[..]), dst[..], pos, Decrypt(cipher, key, old(iv), src[..16 * blockNum]))
      ensures iv == LastBlock(old(iv), src[..16 * blockNum])
    {
      hide Wrote, Lawful, Decrypt, LastBlock;
      ghost var d0, iv0 := dst[..], iv;
      ghost var p: bytes := [];
      NoBlocks(cipher, key, iv);
      assert src[..0] == [];
      assert Wrote(d0, dst[..], pos, p) by { WroteNothing(d0, pos); }
      var i := 0;
      while i < blockNum
        invariant i <= blockNum && Valid()
        invariant p == Decrypt(cipher, key, iv0, src[..16 * i]) && |p| == 16 * i
        invariant iv == LastBlock(iv0, src[..16 * i]) && Wrote(d0, dst[..], pos, p)
      {
        ghost var d1, b := dst[..], src[16 * i..16 * i + 16];
        var r := CryptBlock(false, src[16 * i..16 * i + 16]);
        CopyInto(dst, pos + 16 * i, r);
        WroteBoth(d0, d1, dst[..], pos, p, r);
        OneMoreBlock(cipher, key, iv0, src, i);
        p := p + r;
        i := i + 1;
      }
    }
  }
}
