/**
 * What a finished BL2 image holds, byte by byte, and what its digest covers.
 */
module ImageProps {
  import opened Bytes
  import opened Evp
  import opened Layout
  import opened Header
  import opened Bl2Image

  // ---------------------------------------------------------------------
  // The bytes gi_bl2_sign hashes

  lemma RoundUpBlock(x: nat)
    requires 0 < x <= BLOCK_SZ
    ensures RoundUp(x) == BLOCK_SZ
  {
  }

  lemma RoundUpStep(x: nat, y: nat)
    requires BLOCK_SZ < x && y == x - BLOCK_SZ
    ensures RoundUp(x) == BLOCK_SZ + RoundUp(y)
  {
  }

  /** The last block the hash loop feeds: up to the end of the file or past the count. */
  lemma FedLast(d: seq<Byte>, pos: nat, i: nat, count: nat)
    requires pos + count <= |d| && i < count
    requires count <= i + BLOCK_SZ || |d| < pos + i + BLOCK_SZ
    ensures pos + i <= Min(pos + i + RoundUp(count - i), |d|)
    ensures Fed(d, pos, i, count) == d[pos + i..Min(pos + i + RoundUp(count - i), |d|)]
  {
    var n := Min(BLOCK_SZ, |d| - (pos + i));
    var rest := Fed(d, pos, i + n, count);
    assert rest == [];
    if n == BLOCK_SZ {
      RoundUpBlock(count - i);
    }
    assert d[pos + i..pos + i + n] + [] == d[pos + i..pos + i + n];
  }

  /** A whole block fed before the count is reached: the range grows by it. */
  lemma FedNext(d: seq<Byte>, pos: nat, i: nat, j: nat, count: nat)
    requires pos + count <= |d| && j == i + BLOCK_SZ && j < count && pos + j <= |d|
    requires pos + j <= Min(pos + j + RoundUp(count - j), |d|)
    requires Fed(d, pos, j, count) == d[pos + j..Min(pos + j + RoundUp(count - j), |d|)]
    ensures pos + i <= Min(pos + i + RoundUp(count - i), |d|)
    ensures Fed(d, pos, i, count) == d[pos + i..Min(pos + i + RoundUp(count - i), |d|)]
  {
    RoundUpStep(count - i, count - j);
    var e := Min(pos + i + RoundUp(count - i), |d|);
    assert e == Min(pos + j + RoundUp(count - j), |d|);
    assert Fed(d, pos, i, count) == d[pos + i..pos + j] + Fed(d, pos, j, count);
    SliceJoin(d, pos + i, pos + j, e);
  }

  /**
   * The hash loop feeds whole blocks from pos + i on until count bytes are
   * covered, so it feeds count - i rounded up to a whole block, cut short
   * only by the end of the file.
   */
  lemma {:induction false} FedRange(d: seq<Byte>, pos: nat, i: nat, count: nat)
    requires pos + count <= |d| && i < count
    ensures pos + i <= Min(pos + i + RoundUp(count - i), |d|)
    ensures Fed(d, pos, i, count) == d[pos + i..Min(pos + i + RoundUp(count - i), |d|)]
    decreases count - i
  {
    if count <= i + BLOCK_SZ || |d| < pos + i + BLOCK_SZ {
      FedLast(d, pos, i, count);
    } else {
      var j := i + BLOCK_SZ;
      FedRange(d, pos, j, count);
      FedNext(d, pos, i, j, count);
    }
  }

  /**
   * On a file of image size, gi_bl2_sign with the context of gi_bl2_init
   * hashes the header and everything from the end of the digest to the end
   * of the file: the last block runs past hash_end to the end of the file.
   */
  lemma StandardSignedBytes(d: seq<Byte>, payloadsz: nat)
    requires |d| == IMG_TOTSZ
    ensures var ctx := InitialContext(payloadsz);
      DIGEST_OFF <= |d| && RAND_SZ + ctx.hashStart + HashCount(ctx) <= |d| &&
      SignedBytes(d, ctx) == d[0x10..0x50] + d[0x70..0xC000]
  {
    LayoutConstants(payloadsz);
    var ctx := InitialContext(payloadsz);
    FedRange(d, RAND_SZ + ctx.hashStart, 0, HashCount(ctx));
    assert RoundUp(0xBF30) == 0xC000;
  }

  /** The digest slot is not hashed: writing any digest there leaves the signed bytes alone. */
  lemma SignIgnoresDigest(d: seq<Byte>, h: Digest, payloadsz: nat)
    requires |d| == IMG_TOTSZ
    ensures var ctx := InitialContext(payloadsz);
      var s := Splice(d, DIGEST_OFF, h);
      |s| == IMG_TOTSZ && SignedBytes(s, ctx) == SignedBytes(d, ctx)
  {
    LayoutConstants(payloadsz);
    var s := Splice(d, DIGEST_OFF, h);
    SpliceContents(d, DIGEST_OFF, h);
    StandardSignedBytes(d, payloadsz);
    StandardSignedBytes(s, payloadsz);
    assert s[0x10..0x50] == d[0x10..0x50];
    assert s[0x70..0xC000] == d[0x70..0xC000];
  }

  /**
   * The digest in a finished image is the digest of that image's signed
   * bytes, so checking it succeeds; and signing the image again changes
   * nothing.
   */
  lemma ImageVerifies(salt: seq<Byte>, input: seq<Byte>, junk: seq<Byte>, done: seq<nat>, sha256: seq<Byte> -> Digest)
    requires |salt| == RAND_SZ && |junk| == BLOCK_SZ && KeyCounts(done)
    ensures var m := Image(salt, input, junk, done, sha256);
      var ctx := InitialContext(|input|);
      DIGEST_OFF <= |m| && RAND_SZ + ctx.hashStart + HashCount(ctx) <= |m| &&
      m[DIGEST_OFF..DIGEST_OFF + SHA2_LEN] == sha256(SignedBytes(m, ctx)) &&
      Splice(m, DIGEST_OFF, sha256(SignedBytes(m, ctx))) == m
  {
    LayoutConstants(|input|);
    var ctx := InitialContext(|input|);
    var l := Loaded(salt, input, junk, done);
    var h := sha256(SignedBytes(l, ctx));
    var m := Image(salt, input, junk, done, sha256);
    assert m == Splice(l, DIGEST_OFF, h);
    SignIgnoresDigest(l, h, |input|);
    SpliceContents(l, DIGEST_OFF, h);
    assert m[DIGEST_OFF..DIGEST_OFF + SHA2_LEN] == h;
    var again := Splice(m, DIGEST_OFF, h);
    SpliceContents(m, DIGEST_OFF, h);
    assert again == m;
  }

  // ---------------------------------------------------------------------
  // The image, byte by byte

  /** Byte i of the key area: a placeholder byte that reached the file, or zero. */
  function KeyAt(done: seq<nat>, i: nat): Byte
    requires KeyCounts(done)
  {
    if KEY_SLOTS[0].off <= i < KEY_SLOTS[0].off + done[0] then KeyWord(0, done[0])[i - KEY_SLOTS[0].off]
    else if KEY_SLOTS[1].off <= i < KEY_SLOTS[1].off + done[1] then KeyWord(1, done[1])[i - KEY_SLOTS[1].off]
    else if KEY_SLOTS[2].off <= i < KEY_SLOTS[2].off + done[2] then KeyWord(2, done[2])[i - KEY_SLOTS[2].off]
    else 0
  }

  /**
   * The image layout, region by region: salt, header, digest, key area
   * (zero but for the placeholders), payload, zero padding to the end.
   */
  function Expected(salt: seq<Byte>, input: seq<Byte>, junk: seq<Byte>, done: seq<nat>, digest: Digest, i: nat): Byte
    requires |salt| == RAND_SZ && |junk| == BLOCK_SZ && KeyCounts(done)
  {
    var w := BinaryWrites(input, junk);
    if i < RAND_SZ then salt[i]
    else if i < DIGEST_OFF then HeaderBytes(InfoOf(InitialContext(|input|)))[i - RAND_SZ]
    else if i < DIGEST_OFF + SHA2_LEN then digest[i - DIGEST_OFF]
    else if i < BIN_OFF then KeyAt(done, i)
    else if i < BIN_OFF + |w| then w[i - BIN_OFF]
    else 0
  }

  lemma HeadedAt(salt: seq<Byte>, payloadsz: nat, i: nat)
    requires |salt| == RAND_SZ && i < IMG_TOTSZ
    ensures Headed(salt, payloadsz)[i] == if i < DIGEST_OFF then SaltedHeader(salt, InitialContext(payloadsz))[i] else 0
  {
    SpliceAt(Zeros(IMG_TOTSZ), 0, SaltedHeader(salt, InitialContext(payloadsz)), i);
  }

  lemma KeyedAt(salt: seq<Byte>, payloadsz: nat, done: seq<nat>, i: nat)
    requires |salt| == RAND_SZ && KeyCounts(done) && i < IMG_TOTSZ
    ensures Keyed(salt, payloadsz, done)[i] == if DIGEST_OFF <= i < BIN_OFF then KeyAt(done, i) else Headed(salt, payloadsz)[i]
  {
    var h := Headed(salt, payloadsz);
    HeadedAt(salt, payloadsz, i);
    var k0 := Splice(h, KEY_SLOTS[0].off, KeyWord(0, done[0]));
    var k1 := Splice(k0, KEY_SLOTS[1].off, KeyWord(1, done[1]));
    SpliceAt(h, KEY_SLOTS[0].off, KeyWord(0, done[0]), i);
    SpliceAt(k0, KEY_SLOTS[1].off, KeyWord(1, done[1]), i);
    SpliceAt(k1, KEY_SLOTS[2].off, KeyWord(2, done[2]), i);
  }

  lemma LoadedAt(salt: seq<Byte>, input: seq<Byte>, junk: seq<Byte>, done: seq<nat>, i: nat)
    requires |salt| == RAND_SZ && |junk| == BLOCK_SZ && KeyCounts(done) && i < IMG_TOTSZ
    ensures var w := BinaryWrites(input, junk);
      Loaded(salt, input, junk, done)[i] ==
        if BIN_OFF <= i < BIN_OFF + |w| then w[i - BIN_OFF] else Keyed(salt, |input|, done)[i]
  {
    SpliceAt(Keyed(salt, |input|, done), BIN_OFF, BinaryWrites(input, junk), i);
  }

  /** Byte i of a finished image, whose digest is h, is where the layout puts it. */
  lemma ImageAt(salt: seq<Byte>, input: seq<Byte>, junk: seq<Byte>, done: seq<nat>, h: Digest, i: nat)
    requires |salt| == RAND_SZ && |junk| == BLOCK_SZ && KeyCounts(done) && i < IMG_TOTSZ
    ensures Splice(Loaded(salt, input, junk, done), DIGEST_OFF, h)[i] == Expected(salt, input, junk, done, h, i)
  {
    LayoutConstants(|input|);
    var l := Loaded(salt, input, junk, done);
    SpliceAt(l, DIGEST_OFF, h, i);
    LoadedAt(salt, input, junk, done, i);
    KeyedAt(salt, |input|, done, i);
    HeadedAt(salt, |input|, i);
  }

  /** Every byte of a finished image is where the layout puts it. */
  lemma ImageLayout(salt: seq<Byte>, input: seq<Byte>, junk: seq<Byte>, done: seq<nat>, sha256: seq<Byte> -> Digest)
    requires |salt| == RAND_SZ && |junk| == BLOCK_SZ && KeyCounts(done)
    ensures var m := Image(salt, input, junk, done, sha256);
      var digest := m[DIGEST_OFF..DIGEST_OFF + SHA2_LEN];
      forall i :: 0 <= i < IMG_TOTSZ ==> m[i] == Expected(salt, input, junk, done, digest, i)
  {
    LayoutConstants(|input|);
    var ctx := InitialContext(|input|);
    var l := Loaded(salt, input, junk, done);
    var h := sha256(SignedBytes(l, ctx));
    var m := Image(salt, input, junk, done, sha256);
    assert m == Splice(l, DIGEST_OFF, h);
    SpliceContents(l, DIGEST_OFF, h);
    assert m[DIGEST_OFF..DIGEST_OFF + SHA2_LEN] == h;
    forall i | 0 <= i < IMG_TOTSZ ensures m[i] == Expected(salt, input, junk, done, h, i) {
      ImageAt(salt, input, junk, done, h, i);
    }
  }

  /** The header of a finished image decodes to the values gi_bl2_init chose. */
  lemma ImageHeader(salt: seq<Byte>, input: seq<Byte>, junk: seq<Byte>, done: seq<nat>, sha256: seq<Byte> -> Digest)
    requires |salt| == RAND_SZ && |junk| == BLOCK_SZ && KeyCounts(done)
    ensures var m := Image(salt, input, junk, done, sha256);
      m[..RAND_SZ] == salt &&
      m[HDR_OFF..HDR_OFF + 4] == ['@' as Byte, 'A' as Byte, 'M' as Byte, 'L' as Byte] &&
      Decode(m[HDR_OFF..DIGEST_OFF]) ==
        Info(MAGIC, 1, 1, 0x40, 0, 0, 0xDB0, 0x200, 0x40, 0x60, 0x240, 0xB000, 0xFF0, 0xBFF0, 0xBF90)
  {
    var m := Image(salt, input, junk, done, sha256);
    var info := InfoOf(InitialContext(|input|));
    var hdr := HeaderBytes(info);
    SaltAndHeader(salt, input, junk, done, sha256, hdr);
    InitialHeader(|input|);
    HeaderMagic(info);
    var h := m[HDR_OFF..DIGEST_OFF];
    assert h == hdr;
    assert m[HDR_OFF..HDR_OFF + 4] == h[..4];
  }

  /** A finished image starts with the salt and then the header bytes. */
  lemma SaltAndHeader(salt: seq<Byte>, input: seq<Byte>, junk: seq<Byte>, done: seq<nat>, sha256: seq<Byte> -> Digest,
                      hdr: seq<Byte>)
    requires |salt| == RAND_SZ && |junk| == BLOCK_SZ && KeyCounts(done)
    requires hdr == HeaderBytes(InfoOf(InitialContext(|input|)))
    ensures var m := Image(salt, input, junk, done, sha256);
      m[..RAND_SZ] == salt && m[HDR_OFF..DIGEST_OFF] == hdr
  {
    var m := Image(salt, input, junk, done, sha256);
    ImageLayout(salt, input, junk, done, sha256);
    var digest := m[DIGEST_OFF..DIGEST_OFF + SHA2_LEN];
    forall i | 0 <= i < RAND_SZ ensures m[i] == salt[i] {
      assert m[i] == Expected(salt, input, junk, done, digest, i);
    }
    forall i | HDR_OFF <= i < DIGEST_OFF ensures m[i] == hdr[i - HDR_OFF] {
      assert m[i] == Expected(salt, input, junk, done, digest, i);
    }
    assert m[..RAND_SZ] == salt;
    assert m[HDR_OFF..DIGEST_OFF] == hdr;
  }

  /** The three placeholder words lie in the key header and key, and apart from each other. */
  lemma KeySlotsPlaced()
    ensures forall k :: 0 <= k < 3 ==> KEYHDR_OFF <= KEY_SLOTS[k].off && KEY_SLOTS[k].off + KEY_SLOTS[k].width <= BIN_OFF
    ensures forall a, b :: 0 <= a < b < 3 ==> Apart(KEY_SLOTS[a], KEY_SLOTS[b])
    ensures KEY_SLOTS == [Slot(0x268, 4), Slot(0x8FC, 4), Slot(0xB30, 4)]
  {
  }

  /** Byte j of slot k, when every placeholder write went through, is byte j of word k. */
  lemma KeyAtSlot(k: nat, j: nat)
    requires k < 3 && j < 4
    ensures KeyAt([4, 4, 4], KEY_SLOTS[k].off + j) == KeyWord(k, 4)[j]
  {
  }

  /** When every placeholder write went through, slot k of the image holds word k. */
  lemma KeyBytes(salt: seq<Byte>, input: seq<Byte>, junk: seq<Byte>, sha256: seq<Byte> -> Digest, k: nat)
    requires |salt| == RAND_SZ && |junk| == BLOCK_SZ && k < 3
    ensures var m := Image(salt, input, junk, [4, 4, 4], sha256);
      KEY_SLOTS[k].off + 4 <= |m| && m[KEY_SLOTS[k].off..KEY_SLOTS[k].off + 4] == KeyWord(k, 4)
  {
    var done := [4, 4, 4];
    var m := Image(salt, input, junk, done, sha256);
    var off := KEY_SLOTS[k].off;
    ImageLayout(salt, input, junk, done, sha256);
    var digest := m[DIGEST_OFF..DIGEST_OFF + SHA2_LEN];
    forall j | 0 <= j < 4 ensures m[off + j] == KeyWord(k, 4)[j] {
      assert DIGEST_OFF + SHA2_LEN <= off + j < BIN_OFF;
      assert m[off + j] == Expected(salt, input, junk, done, digest, off + j);
      KeyAtSlot(k, j);
    }
  }

  /** When every placeholder write went through, each placeholder reads back as its word. */
  lemma ImageKeys(salt: seq<Byte>, input: seq<Byte>, junk: seq<Byte>, sha256: seq<Byte> -> Digest)
    requires |salt| == RAND_SZ && |junk| == BLOCK_SZ
    ensures var m := Image(salt, input, junk, [4, 4, 4], sha256);
      forall k :: 0 <= k < 3 ==>
        KEY_SLOTS[k].off + 4 <= |m| && FromLE(m[KEY_SLOTS[k].off..KEY_SLOTS[k].off + 4]) == KEY_VALUES[k]
  {
    var m := Image(salt, input, junk, [4, 4, 4], sha256);
    forall k | 0 <= k < 3
      ensures KEY_SLOTS[k].off + 4 <= |m| && FromLE(m[KEY_SLOTS[k].off..KEY_SLOTS[k].off + 4]) == KEY_VALUES[k]
    {
      KeyBytes(salt, input, junk, sha256, k);
      assert Pow256(4) == 0x1_0000_0000;
      assert KeyWord(k, 4) == LE(KEY_VALUES[k], 4);
      FromLEOfLE(KEY_VALUES[k], 4);
    }
  }

  /**
   * The three ways gi_bl2_dump_binary ends: an input of BIN_SZ bytes or more
   * is cut at BIN_SZ; an input of whole blocks is copied as it is; otherwise
   * the last block is written whole and its tail repeats the bytes one block
   * earlier (junk for the first block), and the status is 1024.
   */
  lemma PayloadCases(input: seq<Byte>, junk: seq<Byte>)
    requires |junk| == BLOCK_SZ
    ensures var w := BinaryWrites(input, junk);
      |input| >= BIN_SZ ==> w == input[..BIN_SZ] && BinaryStatus(|input|) == 0
    ensures var w := BinaryWrites(input, junk);
      |input| < BIN_SZ && Aligned(|input|) ==> w == input && BinaryStatus(|input|) == 0
    ensures var w := BinaryWrites(input, junk);
      |input| < BIN_SZ && !Aligned(|input|) ==>
        BinaryStatus(|input|) == BLOCK_SZ && |w| % BLOCK_SZ == 0 && |input| < |w| < |input| + BLOCK_SZ &&
        w[..|input|] == input &&
        forall j :: |input| <= j < |w| ==> w[j] == if j < BLOCK_SZ then junk[j] else input[j - BLOCK_SZ]
  {
    var n := |input|;
    var w := BinaryWrites(input, junk);
    if n < BIN_SZ && !Aligned(n) {
      var q := RoundDown(n);
      assert q != n;
      assert w[..n] == input;
      forall j | n <= j < |w| ensures w[j] == if j < BLOCK_SZ then junk[j] else input[j - BLOCK_SZ] {
        var last := if q == 0 then junk else input[q - BLOCK_SZ..q];
        assert w == input + last[n - q..];
        assert w[j] == last[j - q];
      }
    }
  }

  /** The payload area of a finished image holds the input, cut at BIN_SZ. */
  lemma ImagePayload(salt: seq<Byte>, input: seq<Byte>, junk: seq<Byte>, done: seq<nat>, sha256: seq<Byte> -> Digest)
    requires |salt| == RAND_SZ && |junk| == BLOCK_SZ && KeyCounts(done)
    ensures var m := Image(salt, input, junk, done, sha256);
      var n := Min(|input|, BIN_SZ);
      m[BIN_OFF..BIN_OFF + n] == input[..n]
  {
    var m := Image(salt, input, junk, done, sha256);
    ImageLayout(salt, input, junk, done, sha256);
    var digest := m[DIGEST_OFF..DIGEST_OFF + SHA2_LEN];
    var n := Min(|input|, BIN_SZ);
    var w := BinaryWrites(input, junk);
    forall i | 0 <= i < n ensures m[BIN_OFF + i] == input[i] {
      assert m[BIN_OFF + i] == Expected(salt, input, junk, done, digest, BIN_OFF + i);
      assert w[i] == input[i];
    }
    assert m[BIN_OFF..BIN_OFF + n] == input[..n];
  }
}
