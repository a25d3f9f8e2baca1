/** The bytes that the two encrypting calls send: the equations of CBC (NIST SP 800-38A section 6.2) block
    by block, the padding of RFC 5652 section 6.3 byte by byte, and the initialisation vectors as text. */
module CipherFrames {
  import opened AesCbc
  import opened AesFraming

  /** The block is the exclusive or of the `i`-th block of `p` and the block before it in `ct`, or the vector. */
  predicate IsChainedBlock(b: bytes, p: bytes, iv: bytes, ct: bytes, i: nat)
    requires |iv| == 16 && |ct| == |p| && 16 * i + 16 <= |p|
  {
    |b| == 16 && forall j :: 0 <= j < 16 ==> b[j] == p[16 * i + j] ^ (if i == 0 then iv[j] else ct[16 * i + j - 16])
  }

  /** Encryption: the i-th cipher block is the cipher of the plain block combined with the cipher block
      before it, or with the vector at the start. */
  lemma {:induction false} EncryptedBlock(c: Cipher, k: bytes, iv: bytes, p: bytes, i: nat, b: bytes)
    requires Lawful(c) && |iv| == 16 && |p| % 16 == 0 && 16 * i + 16 <= |p|
    requires IsChainedBlock(b, p, iv, Encrypt(c, k, iv, p), i)
    ensures Encrypt(c, k, iv, p)[16 * i..16 * i + 16] == c.enc(k, b)
    decreases i
  {
    hide Encrypt, Lawful, Xor;
    var ct, first := Encrypt(c, k, iv, p), c.enc(k, Xor(p[..16], iv));
    assert p == p[..16] + p[16..];
    EncryptCons(c, k, iv, p[..16], p[16..]);
    var rest := Encrypt(c, k, first, p[16..]);
    assert ct == first + rest;
    if i == 0 {
      FirstBlock(b, p, iv, ct);
      assert ct[0..16] == first;
    } else {
      LaterBlock(b, p, iv, first, rest, i);
      EncryptedBlock(c, k, first, p[16..], i - 1, b);
      assert ct[16 * i..16 * i + 16] == rest[16 * (i - 1)..16 * (i - 1) + 16];
    }
  }

  lemma FirstBlock(b: bytes, p: bytes, iv: bytes, ct: bytes)
    requires |iv| == 16 && |ct| == |p| >= 16 && IsChainedBlock(b, p, iv, ct, 0)
    ensures b == Xor(p[..16], iv)
  {
  }

  /** Seen from the second block on, the first cipher block is the vector. */
  lemma LaterBlock(b: bytes, p: bytes, iv: bytes, first: bytes, rest: bytes, i: nat)
    requires |iv| == |first| == 16 && |rest| == |p| - 16 && 0 < i && 16 * i + 16 <= |p|
    requires IsChainedBlock(b, p, iv, first + rest, i)
    ensures IsChainedBlock(b, p[16..], first, rest, i - 1)
  {
    var ct := first + rest;
    forall j | 0 <= j < 16
      ensures b[j] == p[16..][16 * (i - 1) + j] ^ (if i - 1 == 0 then first[j] else rest[16 * (i - 1) + j - 16])
    {
      assert b[j] == p[16 * i + j] ^ ct[16 * i + j - 16];
    }
  }

  /** Decryption: the i-th plain block is the decipherment of the cipher block combined with the cipher
      block before it, or with the vector at the start. */
  lemma {:induction false} DecryptedByte(c: Cipher, k: bytes, iv: bytes, ct: bytes, i: nat, j: nat)
    requires Lawful(c) && |iv| == 16 && |ct| % 16 == 0 && 16 * i + 16 <= |ct| && j < 16
    ensures |c.dec(k, ct[16 * i..16 * i + 16])| == 16
    ensures Decrypt(c, k, iv, ct)[16 * i + j]
         == c.dec(k, ct[16 * i..16 * i + 16])[j] ^ (if i == 0 then iv[j] else ct[16 * i + j - 16])
    decreases i
  {
    hide Decrypt, Xor;
    var p, first := Decrypt(c, k, iv, ct), Xor(c.dec(k, ct[..16]), iv);
    assert ct == ct[..16] + ct[16..];
    DecryptCons(c, k, iv, ct[..16], ct[16..]);
    if i == 0 {
      assert ct[0..16] == ct[..16] && p[j] == first[j];
      XorAt(c.dec(k, ct[..16]), iv, j);
    } else {
      DecryptedByte(c, k, ct[..16], ct[16..], i - 1, j);
      assert ct[16..][16 * (i - 1)..16 * (i - 1) + 16] == ct[16 * i..16 * i + 16];
    }
  }

  lemma XorAt(a: bytes, b: bytes, j: nat)
    requires |a| == |b| == 16 && j < 16
    ensures Xor(a, b)[j] == a[j] ^ b[j]
  {
  }

  /** The padded message: behind it stand as many bytes as are missing from the next multiple of sixteen,
      sixteen if none is, and each of them is this number. */
  lemma PadBytes(m: bytes, i: nat)
    ensures |Pad(m)| == |m| - |m| % 16 + 16
    ensures i < |m| ==> Pad(m)[i] == m[i]
    ensures |m| <= i < |Pad(m)| ==> Pad(m)[i] as int == 16 - |m| % 16
  {
    SmallByte(PadLength(m));
  }

  /** The vectors are texts in ASCII. */
  lemma CloudVector(j: nat)
    requires j < 16
    ensures CLOUD_IV[j] as int == "543yhjy97ae7fyfg"[j] as int
  {
    var v, t := CLOUD_IV, "543yhjy97ae7fyfg";
    assert v[0] as int == t[0] as int && v[1] as int == t[1] as int && v[2] as int == t[2] as int && v[3] as int == t[3] as int;
    assert v[4] as int == t[4] as int && v[5] as int == t[5] as int && v[6] as int == t[6] as int && v[7] as int == t[7] as int;
    assert v[8] as int == t[8] as int && v[9] as int == t[9] as int && v[10] as int == t[10] as int && v[11] as int == t[11] as int;
    assert v[12] as int == t[12] as int && v[13] as int == t[13] as int && v[14] as int == t[14] as int && v[15] as int == t[15] as int;
  }

  lemma LocalVector(j: nat)
    requires j < 16
    ensures LOCAL_IV[j] as int == "a1b1c1d1e1f1g1h1"[j] as int
  {
    var v, t := LOCAL_IV, "a1b1c1d1e1f1g1h1";
    assert v[0] as int == t[0] as int && v[1] as int == t[1] as int && v[2] as int == t[2] as int && v[3] as int == t[3] as int;
    assert v[4] as int == t[4] as int && v[5] as int == t[5] as int && v[6] as int == t[6] as int && v[7] as int == t[7] as int;
    assert v[8] as int == t[8] as int && v[9] as int == t[9] as int && v[10] as int == t[10] as int && v[11] as int == t[11] as int;
    assert v[12] as int == t[12] as int && v[13] as int == t[13] as int && v[14] as int == t[14] as int && v[15] as int == t[15] as int;
  }

  /** The block is the exclusive or of the i-th block of the padded message and the cipher block before it;
      the first block of the message, and the last one too where `restart` says so, take the vector. */
  predicate IsFrameBlock(b: bytes, m: bytes, w: bytes, iv: bytes, restart: bool, i: nat)
    requires |iv| == 16 && |w| == |m| - |m| % 16 + 16 && 16 * i + 16 <= |w|
  {
    && |b| == 16
    && forall j :: 0 <= j < 16 ==>
         var plain := if 16 * i + j < |m| then m[16 * i + j] else (16 - |m| % 16) as bv8;
         var before := if i == 0 || (restart && 16 * i + 16 == |w|) then iv[j] else w[16 * i + j - 16];
         b[j] == plain ^ before
  }

  lemma PadByteIs(m: bytes, i: nat)
    requires i < |m| - |m| % 16 + 16
    ensures |Pad(m)| == |m| - |m| % 16 + 16
    ensures Pad(m)[i] == if i < |m| then m[i] else (16 - |m| % 16) as bv8
  {
  }

  /** What the cloud call sends: the i-th block is the cipher of the i-th block of the padded message combined
      with the cipher block before it. */
  lemma ChainedFrame(c: Cipher, k: bytes, iv: bytes, m: bytes, i: nat, b: bytes)
    requires Lawful(c) && |iv| == 16 && 16 * i + 16 <= |m| - |m| % 16 + 16
    ensures var w := Chained(c, k, iv, m);
            && |w| == |m| - |m| % 16 + 16
            && (IsFrameBlock(b, m, w, iv, false, i) ==> w[16 * i..16 * i + 16] == c.enc(k, b))
  {
    var p, w := Pad(m), Chained(c, k, iv, m);
    PadByteIs(m, 0);
    hide Pad, Lawful, Encrypt;
    if IsFrameBlock(b, m, w, iv, false, i) {
      forall j | 0 <= j < 16 ensures b[j] == p[16 * i + j] ^ (if i == 0 then iv[j] else w[16 * i + j - 16]) {
        PadByteIs(m, 16 * i + j);
      }
      EncryptedBlock(c, k, iv, p, i, b);
    }
  }

  /** What the local call sends: the last block starts from the vector again. */
  lemma RestartedFrame(c: Cipher, k: bytes, iv: bytes, m: bytes, i: nat, b: bytes)
    requires Lawful(c) && |iv| == 16 && 16 * i + 16 <= |m| - |m| % 16 + 16
    ensures var w := Restarted(c, k, iv, m);
            && |w| == |m| - |m| % 16 + 16
            && (IsFrameBlock(b, m, w, iv, true, i) ==> w[16 * i..16 * i + 16] == c.enc(k, b))
  {
    var w, full, rest := Restarted(c, k, iv, m), Full(m), LastPadded(m);
    var head, last := Encrypt(c, k, iv, full), Encrypt(c, k, iv, rest);
    assert w == head + last;
    PadSplits(m);
    PadByteIs(m, 0);
    hide Pad, Lawful, Encrypt, LastPadded, Restarted;
    if IsFrameBlock(b, m, w, iv, true, i) {
      if 16 * i + 16 == |w| {
        forall j | 0 <= j < 16 ensures b[j] == rest[j] ^ iv[j] {
          PadByteIs(m, 16 * i + j);
          assert Pad(m)[16 * i + j] == rest[j];
        }
        EncryptedBlock(c, k, iv, rest, 0, b);
        assert w[16 * i..16 * i + 16] == last[0..16];
      } else {
        EncryptedBlock(c, k, iv, full, i, b);
        assert w[16 * i..16 * i + 16] == head[16 * i..16 * i + 16];
      }
    }
  }
}
