/**
 * The fixed layout of an Amlogic BL2 boot image and the build context
 * (struct bl2).  Offsets named *_OFF are absolute file offsets.
 *
 *   [0x0000, 0x0010)  random salt
 *   [0x0010, 0x0050)  "@AML" header
 *   [0x0050, 0x0250)  digest slot (the SHA-256 digest fills its first 32 bytes)
 *   [0x0250, 0x0280)  key header
 *   [0x0280, 0x1000)  key
 *   [0x1000, 0xC000)  payload
 */
module Layout {

  const IMG_TOTSZ: nat := 0xC000
  const RAND_SZ: nat := 0x10
  const HDR_SZ: nat := 0x40
  const HASH_SZ: nat := 0x200
  const KEY_SZ: nat := 0xD80
  const KEYHDR_SZ: nat := 0x30
  const BIN_SZ: nat := IMG_TOTSZ - (RAND_SZ + HDR_SZ + HASH_SZ + KEYHDR_SZ + KEY_SZ)
  const SHA2_LEN: nat := 0x20

  /** The magic "@AML" as the little-endian 32-bit value whose bytes spell it. */
  const MAGIC: nat := 0x4C4D4140

  /** The block size of the payload copy and of the hash loop. */
  const BLOCK_SZ: nat := 1024

  const HDR_OFF: nat := RAND_SZ
  const DIGEST_OFF: nat := RAND_SZ + HDR_SZ
  const KEYHDR_OFF: nat := RAND_SZ + HDR_SZ + HASH_SZ
  const BIN_OFF: nat := RAND_SZ + HDR_SZ + HASH_SZ + KEYHDR_SZ + KEY_SZ

  /** size_t arithmetic wraps modulo this. */
  const SIZE_MOD: nat := 0x1_0000_0000_0000_0000

  const BF_RSA: bv8 := 1

  /** struct bl2: offsets are relative to the end of the salt. */
  datatype Bl2 = Bl2(payloadsz: nat, totlen: nat, hashStart: nat, hashEnd: nat, flag: bv8)
  {
    predicate IsRsa() { flag & BF_RSA != 0 }
  }

  /** The context gi_bl2_init builds for an input of payloadsz bytes. */
  function InitialContext(payloadsz: nat): Bl2
  {
    Bl2(payloadsz,
        HDR_SZ + HASH_SZ + KEYHDR_SZ + KEY_SZ + BIN_SZ,
        HDR_SZ + SHA2_LEN,
        HASH_SZ + KEYHDR_SZ + KEY_SZ + BIN_SZ - SHA2_LEN,
        0)
  }

  /** The number of bytes the hash loop must count: hash_end - hash_start in size_t. */
  function HashCount(c: Bl2): nat
  {
    (c.hashEnd - c.hashStart) % SIZE_MOD
  }

  /** The sizes add up to the image, whatever the input size. */
  lemma LayoutConstants(payloadsz: nat)
    ensures BIN_SZ == 0xB000
    ensures RAND_SZ + HDR_SZ + HASH_SZ + KEYHDR_SZ + KEY_SZ + BIN_SZ == IMG_TOTSZ
    ensures DIGEST_OFF == 0x50 && KEYHDR_OFF == 0x250 && BIN_OFF == 0x1000
    ensures BIN_OFF + BIN_SZ == IMG_TOTSZ
    ensures var c := InitialContext(payloadsz);
      c.totlen == 0xBFF0 && c.totlen + RAND_SZ == IMG_TOTSZ &&
      c.hashStart == 0x60 && c.hashEnd == 0xBF90 && HashCount(c) == 0xBF30 &&
      RAND_SZ + c.hashStart == DIGEST_OFF + SHA2_LEN &&
      c.hashEnd + SHA2_LEN == c.totlen - HDR_SZ &&
      !c.IsRsa()
  {
    var c := InitialContext(payloadsz);
    assert c.hashEnd - c.hashStart == 0xBF30 < SIZE_MOD;
  }
}
