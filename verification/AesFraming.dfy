/** The two pairs of encrypting and decrypting calls of the SDK, writing their output buffers. */
module AesFraming {
  import opened Bytes
  import opened AesCbc

  /** The bytes of "543yhjy97ae7fyfg" and of "a1b1c1d1e1f1g1h1". */
  const CLOUD_IV: bytes := [0x35, 0x34, 0x33, 0x79, 0x68, 0x6A, 0x79, 0x39, 0x37, 0x61, 0x65, 0x37, 0x66, 0x79, 0x66, 0x67]
  const LOCAL_IV: bytes := [0x61, 0x31, 0x62, 0x31, 0x63, 0x31, 0x64, 0x31, 0x65, 0x31, 0x66, 0x31, 0x67, 0x31, 0x68, 0x31]

  /** How many whole blocks there are. */
  function Blocks(src: bytes): (n: nat)
    ensures 16 * n <= |src| < 16 * n + 16
  {
    |src| / 16
  }

  /** The local buffer for the last block: the rest of the message, filled up with the pad length. */
  method LastBuffer(src: bytes, len1: nat) returns (buf: bytes)
    requires len1 == 16 * Blocks(src)
    ensures buf == LastPadded(src)
  {
    var pad := len1 + 16 - |src|;
    var a := new bv8[16](_ => 0);
    forall i | 0 <= i < |src| - len1 { a[i] := src[len1 + i]; }
    forall i | |src| - len1 <= i < 16 { a[i] := pad as bv8; }
    buf := a[..];
  }

  /** The whole blocks of the message; without any, nothing is written. */
  lemma FullBlocks(c: Cipher, key: bytes, iv: bytes, src: bytes, d: bytes)
    requires Lawful(c) && |iv| == 16
    ensures src[..16 * Blocks(src)] == Full(src) && |Full(src)| % 16 == 0
    ensures Wrote(d, d, 0, []) && (Blocks(src) == 0 ==> Encrypt(c, key, iv, Full(src)) == [])
  {
  }

  /** Pads the rest of the message and puts it behind the cipher text `head` of the whole blocks. */
  method PadInto(aes: Aes, src: bytes, out: array<bv8>, ghost d0: bytes, ghost head: bytes)
    requires aes.Valid() && |head| == 16 * Blocks(src) && |head| + 16 <= out.Length && Wrote(d0, out[..], 0, head)
    modifies aes, out
    ensures Wrote(d0, out[..], 0, head + Encrypt(aes.cipher, aes.key, old(aes.iv), LastPadded(src)))
  {
    hide Wrote, Lawful, Blocks, LastPadded, Encrypt, LastBlock;
    var len1 := 16 * Blocks(src);
    ghost var d1, last := out[..], Encrypt(aes.cipher, aes.key, aes.iv, LastPadded(src));
    var pad := len1 + 16 - |src|;
    if pad != 0 {
      var buf := LastBuffer(src, len1);
      assert buf[..16 * 1] == buf;
      aes.CbcEncrypt(buf, 1, out, len1);
    }
    WroteBoth(d0, d1, out[..], 0, head, last);
  }

  lemma ChainedParts(c: Cipher, key: bytes, src: bytes)
    requires Lawful(c)
    ensures |Full(src)| % 16 == 0
    ensures var full := Encrypt(c, key, CLOUD_IV, Full(src));
            Chained(c, key, CLOUD_IV, src) == full + Encrypt(c, key, LastBlock(CLOUD_IV, full), LastPadded(src))
  {
    PadSplits(src);
    EncryptAppend(c, key, CLOUD_IV, Full(src), LastPadded(src));
  }

  /** iotx_aes_cbc_encrypt: one context for all blocks, so the last block is chained. */
  method CloudEncrypt(c: Cipher, src: bytes, key: bytes, out: array<bv8>) returns (n: nat)
    requires Lawful(c) && 16 * Blocks(src) + 16 <= out.Length
    modifies out
    ensures n == 16 * Blocks(src) + 16
    ensures Wrote(old(out[..]), out[..], 0, Chained(c, key, CLOUD_IV, src))
  {
    hide Wrote, Lawful, Blocks, Full, LastPadded, Encrypt, LastBlock, Chained;
    var len1 := 16 * Blocks(src);
    ghost var d0 := out[..];
    FullBlocks(c, key, CLOUD_IV, src, d0);
    ChainedParts(c, key, src);
    var aes := new Aes.Init(c, key, CLOUD_IV);
    NoBlocks(c, key, CLOUD_IV);
    if len1 != 0 {
      aes.CbcEncrypt(src, Blocks(src), out, 0);
    }
    PadInto(aes, src, out, d0, Encrypt(c, key, CLOUD_IV, Full(src)));
    return len1 + 16;
  }

  /** alcs_encrypt: a fresh context for the last block. */
  method LocalEncrypt(c: Cipher, src: bytes, key: bytes, out: array<bv8>) returns (n: nat)
    requires Lawful(c) && 16 * Blocks(src) + 16 <= out.Length
    modifies out
    ensures n == 16 * Blocks(src) + 16
    ensures Wrote(old(out[..]), out[..], 0, Restarted(c, key, LOCAL_IV, src))
  {
    hide Wrote, Lawful, Blocks, Full, LastPadded, Encrypt, LastBlock;
    var len1 := 16 * Blocks(src);
    ghost var d0 := out[..];
    FullBlocks(c, key, LOCAL_IV, src, d0);
    if len1 != 0 {
      var first := new Aes.Init(c, key, LOCAL_IV);
      first.CbcEncrypt(src, Blocks(src), out, 0);
    }
    var last := new Aes.Init(c, key, LOCAL_IV);
    PadInto(last, src, out, d0, Encrypt(c, key, LOCAL_IV, Full(src)));
    return len1 + 16;
  }

  /** What the two decrypting calls work on: the plain text of the whole blocks in front of what the buffer
      held before. */
  ghost function Filled(p: bytes, before: bytes): (b: bytes)
    requires |p| <= |before|
    ensures |b| == |before|
  {
    p + before[|p|..]
  }

  /** The byte at the end of the `len` bytes, taken as the pad length, stays inside them. */
  ghost predicate PadInside(b: bytes, len: nat) {
    0 < len < |b| && b[len - 1] as int <= len
  }

  /** The buffer after the call, and its result: all but the pad, terminated. */
  ghost predicate Ended(out: bytes, b: bytes, len: nat, n: int)
    requires PadInside(b, len)
  {
    n == len - b[len - 1] as int && out == b[n := 0]
  }

  method Terminate(out: array<bv8>, len: nat, ghost b: bytes) returns (n: int)
    requires out[..] == b && PadInside(b, len)
    modifies out
    ensures Ended(out[..], b, len, n)
  {
    var pad := out[len - 1] as int;
    out[len - pad] := 0;
    return len - pad;
  }

  /** All but the last of the whole blocks, and the last. */
  lemma LastBlockApart(src: bytes)
    requires |src| >= 16
    ensures var whole, offset := src[..16 * Blocks(src)], 16 * (Blocks(src) - 1);
            && whole[..|whole| - 16] == src[..offset] && whole[|whole| - 16..] == src[offset..][..16]
            && whole == src[..offset] + src[offset..][..16]
  {
  }

  lemma ChainedApart(c: Cipher, key: bytes, src: bytes)
    requires Lawful(c) && |src| >= 16
    ensures var offset := 16 * (Blocks(src) - 1);
            Decrypt(c, key, CLOUD_IV, src[..16 * Blocks(src)])
            == Decrypt(c, key, CLOUD_IV, src[..offset]) + Decrypt(c, key, LastBlock(CLOUD_IV, src[..offset]), src[offset..][..16])
  {
    hide Lawful;
    LastBlockApart(src);
    var offset := 16 * (Blocks(src) - 1);
    DecryptAppend(c, key, CLOUD_IV, src[..offset], src[offset..][..16]);
  }

  lemma RestartedApart(c: Cipher, key: bytes, src: bytes)
    requires Lawful(c) && |src| >= 16
    ensures var offset := 16 * (Blocks(src) - 1);
            RestartedPlain(c, key, LOCAL_IV, src[..16 * Blocks(src)])
            == Decrypt(c, key, LOCAL_IV, src[..offset]) + Decrypt(c, key, LOCAL_IV, src[offset..][..16])
  {
    hide Lawful;
    LastBlockApart(src);
  }

  lemma FilledBoth(d0: bytes, d1: bytes, d2: bytes, p: bytes, q: bytes)
    requires |p| + |q| <= |d0| == |d1| && |q| == 16
    requires Wrote(d0, d1, 0, p) && Wrote(d1[..|p|] + [0] + d1[|p| + 1..], d2, |p|, q)
    ensures d2 == Filled(p + q, d0)
  {
    assert (d1[..|p|] + [0] + d1[|p| + 1..])[|p| + 16..] == d0[|p| + 16..];
  }

  /** The last whole block, behind the plain text `head` of the others. */
  method LastBlockInto(aes: Aes, block: bytes, out: array<bv8>, offset: nat, ghost d0: bytes, ghost head: bytes)
    requires aes.Valid() && |block| >= 16 && |head| == offset && offset + 16 <= out.Length && Wrote(d0, out[..], 0, head)
    modifies aes, out
    ensures |d0| == out.Length
    ensures out[..] == Filled(head + Decrypt(aes.cipher, aes.key, old(aes.iv), block[..16]), d0)
  {
    hide Lawful, Wrote;
    WroteLength(d0, out[..], head);
    ghost var d1 := out[..];
    out[offset] := 0;
    assert out[..] == d1[..offset] + [0] + d1[offset + 1..];
    ghost var q := Decrypt(aes.cipher, aes.key, aes.iv, block[..16]);
    aes.CbcDecrypt(block, 1, out, offset);
    FilledBoth(d0, d1, out[..], head, q);
  }

  lemma WroteLength(d0: bytes, d1: bytes, head: bytes)
    requires Wrote(d0, d1, 0, head)
    ensures |d0| == |d1|
  {
  }

  /** iotx_aes_cbc_decrypt.  Of a length that is not whole blocks the rest is left alone, but the pad length
      is still looked up at its end. */
  method CloudDecrypt(c: Cipher, src: bytes, key: bytes, out: array<bv8>) returns (n: int)
    requires Lawful(c) && 16 <= |src| < out.Length
    requires PadInside(Filled(Decrypt(c, key, CLOUD_IV, src[..16 * Blocks(src)]), out[..]), |src|)
    modifies out
    ensures Ended(out[..], Filled(Decrypt(c, key, CLOUD_IV, src[..16 * Blocks(src)]), old(out[..])), |src|, n)
  {
    hide Lawful, Wrote, PadInside, Ended, Filled, Blocks;
    var blocks := Blocks(src);
    var offset := 16 * (blocks - 1);
    ghost var d0, head := out[..], Decrypt(c, key, CLOUD_IV, src[..offset]);
    ChainedApart(c, key, src);
    NoneWritten(c, key, CLOUD_IV, src, d0);
    var aes := new Aes.Init(c, key, CLOUD_IV);
    if blocks > 1 {
      aes.CbcDecrypt(src, blocks - 1, out, 0);
    }
    LastBlockInto(aes, src[offset..], out, offset, d0, head);
    n := Terminate(out, |src|, out[..]);
  }

  /** alcs_decrypt, with the same treatment of the rest. */
  method LocalDecrypt(c: Cipher, src: bytes, key: bytes, out: array<bv8>) returns (n: int)
    requires Lawful(c) && 16 <= |src| < out.Length
    requires PadInside(Filled(RestartedPlain(c, key, LOCAL_IV, src[..16 * Blocks(src)]), out[..]), |src|)
    modifies out
    ensures Ended(out[..], Filled(RestartedPlain(c, key, LOCAL_IV, src[..16 * Blocks(src)]), old(out[..])), |src|, n)
  {
    hide Lawful, Wrote, PadInside, Ended, Filled, Blocks, RestartedPlain;
    var blocks := Blocks(src);
    var offset := 16 * (blocks - 1);
    ghost var d0, head := out[..], Decrypt(c, key, LOCAL_IV, src[..offset]);
    RestartedApart(c, key, src);
    NoneWritten(c, key, LOCAL_IV, src, d0);
    if blocks > 1 {
      var first := new Aes.Init(c, key, LOCAL_IV);
      first.CbcDecrypt(src, blocks - 1, out, 0);
    }
    var last := new Aes.Init(c, key, LOCAL_IV);
    LastBlockInto(last, src[offset..], out, offset, d0, head);
    n := Terminate(out, |src|, out[..]);
  }

  lemma NoneWritten(c: Cipher, key: bytes, iv: bytes, src: bytes, d: bytes)
    requires Lawful(c) && |iv| == 16
    ensures Wrote(d, d, 0, Decrypt(c, key, iv, src[..0]))
  {
  }

  /** The terminated buffer of a padded plain text. */
  lemma EndedIsMessage(out: bytes, p: bytes, before: bytes, n: int)
    requires Unpaddable(p) && |p| < |before|
    ensures PadInside(Filled(p, before), |p|)
    ensures Ended(out, Filled(p, before), |p|, n) ==> n == |Unpad(p)| && |out| == |before| && out[..n] == Unpad(p) && out[n] == 0
  {
  }

  lemma WroteAll(before: bytes, after: bytes, s: bytes)
    requires Wrote(before, after, 0, s) && |s| == |before|
    ensures after == s
  {
  }

  lemma WholeBlocks(src: bytes)
    requires |src| % 16 == 0
    ensures src[..16 * Blocks(src)] == src
  {
  }

  /** What the cloud pair gives end to end: decrypting into any buffer that holds the cipher text and a
      terminator leaves the message, its length and a 0 behind it. */
  method CloudThereAndBack(c: Cipher, m: bytes, key: bytes, room: nat) returns (n: int, text: bytes)
    requires Lawful(c) && room > |m| - |m| % 16 + 16
    ensures n == |m| && |text| == room && text[..n] == m && text[n] == 0
  {
    hide Ended, PadInside, Filled, Decrypt, RestartedPlain, Chained, Restarted, Lawful, Wrote, Unpaddable, Unpad;
    ChainedRoundTrip(c, key, CLOUD_IV, m);
    var cipher := new bv8[|m| - |m| % 16 + 16](_ => 0);
    ghost var c0 := cipher[..];
    var len := CloudEncrypt(c, m, key, cipher);
    WroteAll(c0, cipher[..], Chained(c, key, CLOUD_IV, m));
    var out := new bv8[room](_ => 0);
    ghost var ct, before := cipher[..], out[..];
    WholeBlocks(ct);
    EndedIsMessage([], Decrypt(c, key, CLOUD_IV, ct), before, 0);
    n := CloudDecrypt(c, cipher[..], key, out);
    text := out[..];
    EndedIsMessage(text, Decrypt(c, key, CLOUD_IV, ct), before, n);
  }

  method LocalThereAndBack(c: Cipher, m: bytes, key: bytes, room: nat) returns (n: int, text: bytes)
    requires Lawful(c) && room > |m| - |m| % 16 + 16
    ensures n == |m| && |text| == room && text[..n] == m && text[n] == 0
  {
    hide Ended, PadInside, Filled, Decrypt, RestartedPlain, Chained, Restarted, Lawful, Wrote, Unpaddable, Unpad;
    RestartedRoundTrip(c, key, LOCAL_IV, m);
    var cipher := new bv8[|m| - |m| % 16 + 16](_ => 0);
    ghost var c0 := cipher[..];
    var len := LocalEncrypt(c, m, key, cipher);
    WroteAll(c0, cipher[..], Restarted(c, key, LOCAL_IV, m));
    var out := new bv8[room](_ => 0);
    ghost var ct, before := cipher[..], out[..];
    WholeBlocks(ct);
    EndedIsMessage([], RestartedPlain(c, key, LOCAL_IV, ct), before, 0);
    n := LocalDecrypt(c, cipher[..], key, out);
    text := out[..];
    EndedIsMessage(text, RestartedPlain(c, key, LOCAL_IV, ct), before, n);
  }
}
