/**
 * Building a BL2 boot image: gi_bl2_create_img and the stages it runs on the
 * output file, in order: zero-fill, header, key placeholders, payload, digest.
 * Every stage seeks to an absolute offset and writes there; the functions
 * here say what the file holds after each stage.
 */
module Bl2Image {
  import opened Bytes
  import opened Posix
  import opened Evp
  import opened Layout
  import opened Header

  const EINVAL: int := 22

  // ---------------------------------------------------------------------
  // gi_bl2_init

  /** gi_bl2_init: size the input and fill in the context. */
  method Init(fin: File) returns (ret: int, ctx: Bl2)
    modifies fin`pos
    ensures ret == 0 && ctx == InitialContext(|fin.data|)
    ensures fin.pos == |fin.data|
  {
    var fsz := fin.SeekEnd();
    ctx := Bl2(payloadsz := fsz,
               flag := 0,
               hashStart := HDR_SZ + SHA2_LEN,
               hashEnd := HASH_SZ + KEYHDR_SZ + KEY_SZ + BIN_SZ - SHA2_LEN,
               totlen := HDR_SZ + HASH_SZ + KEYHDR_SZ + KEY_SZ + BIN_SZ);
    ret := 0;
  }

  // ---------------------------------------------------------------------
  // Block I/O

  /** A buffer holding prev once n bytes of d from pos on are read into its start. */
  function Filled(prev: seq<Byte>, d: seq<Byte>, pos: nat, n: nat): (r: seq<Byte>)
    requires n <= |prev| && (n == 0 || pos + n <= |d|)
    ensures |r| == |prev|
  {
    if n == 0 then prev else d[pos..pos + n] + prev[n..]
  }

  /** One more read of n bytes extends the filled prefix by n. */
  lemma FilledStep(prev: seq<Byte>, d: seq<Byte>, pos: nat, i: nat, n: nat, mid: seq<Byte>, next: seq<Byte>)
    requires i + n <= |prev| && (i + n == 0 || pos + i + n <= |d|) && |next| == |mid|
    requires mid == Filled(prev, d, pos, i)
    requires next[..i] == mid[..i] && next[i + n..] == mid[i + n..]
    requires n > 0 ==> next[i..i + n] == d[pos + i..pos + i + n]
    ensures next == Filled(prev, d, pos, i + n)
  {
    if i + n > 0 {
      var f := Filled(prev, d, pos, i + n);
      forall k | 0 <= k < |next| ensures next[k] == f[k] {
        if k < i {
          assert next[k] == mid[k];
        } else if k < i + n {
          assert next[k] == next[i..i + n][k - i];
        } else {
          assert next[k] == mid[k];
        }
      }
    }
  }

  /**
   * gi_bl2_read_blk: read until sz bytes are in blk or the file ends.  It
   * returns min(sz, bytes left), or -1 if a read fails (done bytes were read
   * by then).
   */
  method ReadBlk(f: File, blk: array<Byte>, sz: nat) returns (nr: int, ghost done: nat)
    requires sz <= blk.Length
    modifies f`pos, blk
    ensures done <= sz && done <= old(f.Avail()) && f.pos == old(f.pos) + done
    ensures blk[..] == Filled(old(blk[..]), f.data, old(f.pos), done)
    ensures nr >= 0 ==> nr == done == Min(sz, old(f.Avail()))
    ensures nr < 0 ==> nr == -1 && done < sz
  {
    ghost var prev, p0 := blk[..], f.pos;
    var i: nat := 0;
    nr := 1;
    while i < sz && nr != 0
      invariant i <= sz && i <= old(f.Avail()) && f.pos == p0 + i
      invariant blk[..] == Filled(prev, f.data, p0, i)
      invariant nr == 0 ==> i == old(f.Avail())
      decreases sz - i, if nr == 0 then 0 else 1
    {
      ghost var mid := blk[..];
      nr := f.Read(blk, i, sz - i);
      if nr < 0 {
        done := i;
        return;
      }
      FilledStep(prev, f.data, p0, i, nr, mid, blk[..]);
      i := i + nr;
    }
    nr := i;
    done := i;
  }

  /**
   * gi_bl2_write_blk: write blk[..sz] at the offset, looping over short
   * writes.  It returns sz, or -1 if a write fails (done bytes were written by
   * then).
   */
  method WriteBlk(f: File, blk: seq<Byte>, sz: nat) returns (nr: int, ghost done: nat)
    requires sz <= |blk|
    modifies f
    ensures done <= sz && f.pos == old(f.pos) + done
    ensures f.data == Splice(old(f.data), old(f.pos), blk[..done])
    ensures nr >= 0 ==> nr == sz && done == sz
    ensures nr >= 0 && sz == |blk| ==> f.data == Splice(old(f.data), old(f.pos), blk)
    ensures nr < 0 ==> nr == -1 && done < sz
  {
    ghost var d0, p0 := f.data, f.pos;
    var i: nat := 0;
    while i < sz
      invariant i <= sz && f.pos == p0 + i
      invariant f.data == Splice(d0, p0, blk[..i])
    {
      var rest := blk[i..sz];
      nr := f.Write(rest);
      if nr < 0 {
        done := i;
        return;
      }
      WriteStep(d0, p0, blk, i, nr, sz);
      i := i + nr;
    }
    assert sz == |blk| ==> blk[..sz] == blk;
    nr := i;
    done := i;
  }

  lemma PrefixStep(blk: seq<Byte>, i: nat, n: nat, sz: nat)
    requires i + n <= sz <= |blk|
    ensures blk[..i] + blk[i..sz][..n] == blk[..i + n]
  {
  }

  /** A write of the next n bytes extends the prefix already written. */
  lemma WriteStep(d: seq<Byte>, p: nat, blk: seq<Byte>, i: nat, n: nat, sz: nat)
    requires i + n <= sz <= |blk|
    ensures Splice(Splice(d, p, blk[..i]), p + i, blk[i..sz][..n]) == Splice(d, p, blk[..i + n])
  {
    var a, b := blk[..i], blk[i..sz][..n];
    PrefixStep(blk, i, n, sz);
    assert |a| == i && a + b == blk[..i + n];
    SpliceAppend(d, p, a, b, p + i);
  }

  // ---------------------------------------------------------------------
  // gi_bl2_dump_hdr

  /** The salt followed by the header, as gi_bl2_dump_hdr writes them from offset 0. */
  function SaltedHeader(salt: seq<Byte>, ctx: Bl2): (s: seq<Byte>)
    ensures |s| == |salt| + HDR_SZ
  {
    salt + HeaderBytes(InfoOf(ctx))
  }

  /** Storing slot k with value val takes the first k stores to the first k + 1. */
  lemma StoredNext(h: seq<Byte>, slots: seq<Slot>, vals: seq<nat>, k: nat, off: nat, width: nat, val: nat)
    requires |h| == HDR_SZ && InHeader(slots) && |vals| == |slots| && k < |slots|
    requires slots[k] == Slot(off, width) && vals[k] == val
    ensures Stored(h, slots, vals, k + 1) == Store(Stored(h, slots, vals, k), Slot(off, width), val)
  {
  }

  /** bh_wr of field k, taking the buffer from the first k fields stored to the first k + 1. */
  method PutField(hdr: array<Byte>, ghost vals: seq<nat>, ghost k: nat, off: nat, width: nat, val: nat)
    requires hdr.Length == HDR_SZ && |vals| == FIELD_COUNT && k < FIELD_COUNT
    requires FIELDS[k] == Slot(off, width) && vals[k] == val
    requires hdr[..] == StoredFields(vals, k)
    modifies hdr
    ensures hdr[..] == StoredFields(vals, k + 1)
  {
    FieldsInHeader();
    PutLE(hdr, off, width, val);
    StoredNext(Zeros(HDR_SZ), FIELDS, vals, k, off, width, val);
  }

  /** The values gi_bl2_dump_hdr stores, field by field. */
  lemma ValuesOf(ctx: Bl2)
    ensures var v := Values(InfoOf(ctx));
      v[0] == MAGIC && v[1] == 1 && v[2] == 1 && v[3] == HDR_SZ && v[4] == 0 &&
      v[5] == 0 && v[6] == KEYHDR_SZ + KEY_SZ && v[7] == HASH_SZ && v[8] == HDR_SZ &&
      v[9] == ctx.hashStart && v[10] == HDR_SZ + HASH_SZ && v[11] == BIN_SZ &&
      v[12] == HDR_SZ + HASH_SZ + KEYHDR_SZ + KEY_SZ && v[13] == ctx.totlen && v[14] == ctx.hashEnd
  {
  }

  /** The header buffer of gi_bl2_dump_hdr: zeroed, then every field stored in turn with bh_wr. */
  method FillHeader(ctx: Bl2) returns (hdr: array<Byte>)
    ensures fresh(hdr) && hdr[..] == HeaderBytes(InfoOf(ctx))
  {
    ghost var vals := Values(InfoOf(ctx));
    ValuesOf(ctx);
    hdr := new Byte[HDR_SZ](_ => 0);
    assert hdr[..] == StoredFields(vals, 0);
    PutField(hdr, vals, 0, 0x00, 4, MAGIC);
    PutField(hdr, vals, 1, 0x0a, 1, 1);
    PutField(hdr, vals, 2, 0x0b, 1, 1);
    PutField(hdr, vals, 3, 0x08, 2, HDR_SZ);
    PutField(hdr, vals, 4, 0x10, 4, 0);
    PutField(hdr, vals, 5, 0x20, 4, 0);
    PutField(hdr, vals, 6, 0x28, 4, KEYHDR_SZ + KEY_SZ);
    PutField(hdr, vals, 7, 0x18, 4, HASH_SZ);
    PutField(hdr, vals, 8, 0x14, 4, HDR_SZ);
    PutField(hdr, vals, 9, 0x1c, 2, ctx.hashStart);
    PutField(hdr, vals, 10, 0x24, 2, HDR_SZ + HASH_SZ);
    PutField(hdr, vals, 11, 0x38, 2, BIN_SZ);
    PutField(hdr, vals, 12, 0x34, 2, HDR_SZ + HASH_SZ + KEYHDR_SZ + KEY_SZ);
    PutField(hdr, vals, 13, 0x04, 2, ctx.totlen);
    PutField(hdr, vals, 14, 0x2c, 2, ctx.hashEnd);
    assert hdr[..] == StoredFields(vals, FIELD_COUNT);
  }

  /**
   * gi_bl2_dump_hdr: fill a zeroed 64-byte header field by field, then write
   * the salt at offset 0 followed by the header.  On failure it returns -1
   * having written done bytes of the two.
   */
  method DumpHdr(ctx: Bl2, f: File, salt: seq<Byte>) returns (ret: int, ghost done: nat)
    requires |salt| == RAND_SZ
    modifies f
    ensures ctx.IsRsa() ==> ret == -EINVAL && f.data == old(f.data) && f.pos == old(f.pos)
    ensures !ctx.IsRsa() ==> done <= RAND_SZ + HDR_SZ && f.pos == done
    ensures !ctx.IsRsa() ==> f.data == Splice(old(f.data), 0, SaltedHeader(salt, ctx)[..done])
    ensures !ctx.IsRsa() ==> (ret == 0 <==> done == RAND_SZ + HDR_SZ) && (ret != 0 ==> ret == -1)
  {
    if ctx.IsRsa() {
      ret, done := -EINVAL, 0;
      return;
    }

    f.Seek(0);
    var hdr := FillHeader(ctx);

    var nr;
    ghost var wrote;
    nr, wrote := WriteBlk(f, salt, RAND_SZ);
    if nr != RAND_SZ {
      assert salt[..wrote] == SaltedHeader(salt, ctx)[..wrote];
      ret, done := nr, wrote;
      return;
    }
    assert salt[..RAND_SZ] == salt;
    nr, wrote := WriteBlk(f, hdr[..], HDR_SZ);
    SpliceAppend(old(f.data), 0, salt, hdr[..wrote], RAND_SZ);
    assert salt + hdr[..wrote] == SaltedHeader(salt, ctx)[..RAND_SZ + wrote];
    done := RAND_SZ + wrote;
    if nr != HDR_SZ {
      ret := nr;
      return;
    }
    ret := 0;
  }

  // ---------------------------------------------------------------------
  // gi_bl2_dump_key

  /** The three placeholder words in the key header and key region (their meaning is unknown). */
  const KEY_SLOTS: seq<Slot> := [Slot(KEYHDR_OFF + 0x18, 4), Slot(RAND_SZ + 0x8ec, 4), Slot(RAND_SZ + 0xb20, 4)]
  const KEY_VALUES: seq<nat> := [0x298, 0x240, 0x298]

  /** How many bytes of each placeholder word reached the file. */
  predicate KeyCounts(done: seq<nat>)
  {
    |done| == 3 && forall k :: 0 <= k < 3 ==> done[k] <= 4
  }

  /** The first n bytes of placeholder k, little-endian. */
  function KeyWord(k: nat, n: nat): (s: seq<Byte>)
    requires k < 3 && n <= 4
    ensures |s| == n
  {
    LE(KEY_VALUES[k], 4)[..n]
  }

  /** A file holding d after the three placeholder writes put done[k] bytes of word k in place. */
  function KeyImage(d: seq<Byte>, done: seq<nat>): seq<Byte>
    requires KeyCounts(done)
  {
    Splice(Splice(Splice(d, KEY_SLOTS[0].off, KeyWord(0, done[0])),
                  KEY_SLOTS[1].off, KeyWord(1, done[1])),
           KEY_SLOTS[2].off, KeyWord(2, done[2]))
  }

  /**
   * gi_bl2_dump_key: write the three placeholder words.  Failed writes are
   * ignored, so the result is 0 whatever reached the file.
   */
  method DumpKey(ctx: Bl2, f: File) returns (ret: int, ghost done: seq<nat>)
    modifies f
    ensures ctx.IsRsa() ==> ret == -EINVAL && f.data == old(f.data) && f.pos == old(f.pos)
    ensures !ctx.IsRsa() ==> ret == 0 && KeyCounts(done) && f.data == KeyImage(old(f.data), done)
  {
    if ctx.IsRsa() {
      ret, done := -EINVAL, [];
      return;
    }
    var ignored;
    ghost var d0, d1, d2;

    f.Seek(RAND_SZ + HDR_SZ + HASH_SZ + 0x18);
    var val := LE(0x298, 4);
    ignored, d0 := WriteBlk(f, val, 4);

    f.Seek(RAND_SZ + 0x8ec);
    val := LE(0x240, 4);
    ignored, d1 := WriteBlk(f, val, 4);

    f.Seek(RAND_SZ + 0xb20);
    val := LE(0x298, 4);
    ignored, d2 := WriteBlk(f, val, 4);

    done := [d0, d1, d2];
    ret := 0;
  }

  // ---------------------------------------------------------------------
  // gi_bl2_dump_binary

  /**
   * What the copy loop of gi_bl2_dump_binary writes from payload offset nr
   * on when no call fails, the block buffer holding prev: whole blocks of
   * the input until BIN_SZ bytes are copied or the input ends exactly; a
   * short last block is written whole, its tail still holding prev's bytes.
   */
  function Copied(input: seq<Byte>, prev: seq<Byte>, nr: nat): seq<Byte>
    requires |prev| == BLOCK_SZ
    decreases BIN_SZ - nr
  {
    if nr >= BIN_SZ || |input| <= nr then []
    else if |input| < nr + BLOCK_SZ then Filled(prev, input, nr, |input| - nr)
    else input[nr..nr + BLOCK_SZ] + Copied(input, input[nr..nr + BLOCK_SZ], nr + BLOCK_SZ)
  }

  /**
   * What the copy loop returns from payload offset nr on when no call fails:
   * a short last block leaves the count of its whole write as the result.
   */
  function CopyStatus(n: nat, nr: nat): int
    decreases BIN_SZ - nr
  {
    if nr >= BIN_SZ || n <= nr then 0
    else if n < nr + BLOCK_SZ then BLOCK_SZ
    else CopyStatus(n, nr + BLOCK_SZ)
  }

  /** n is a whole number of blocks (BLOCK_SZ is 1024). */
  predicate Aligned(n: nat)
  {
    n % 1024 == 0
  }

  /** Whole blocks from offset 0 never straddle the end of the payload area. */
  lemma BlockBound(nr: nat)
    requires Aligned(nr) && nr < BIN_SZ
    ensures nr + BLOCK_SZ <= BIN_SZ && Aligned(nr + BLOCK_SZ)
  {
  }

  /** One whole block copied: the loop's invariant moves on by a block. */
  lemma CopyWhole(d0: seq<Byte>, input: seq<Byte>, prev: seq<Byte>, nr: nat,
                  block: seq<Byte>, w: seq<Byte>, d: seq<Byte>)
    requires |prev| == BLOCK_SZ && nr < BIN_SZ && nr + BLOCK_SZ <= |input|
    requires block == Filled(prev, input, nr, BLOCK_SZ)
    requires w == input[..nr] + Copied(input, prev, nr)
    requires d == Splice(Splice(d0, BIN_OFF, input[..nr]), BIN_OFF + nr, block)
    ensures block == input[nr..nr + BLOCK_SZ]
    ensures w == input[..nr + BLOCK_SZ] + Copied(input, block, nr + BLOCK_SZ)
    ensures d == Splice(d0, BIN_OFF, input[..nr + BLOCK_SZ])
    ensures CopyStatus(|input|, nr) == CopyStatus(|input|, nr + BLOCK_SZ)
  {
    assert block == input[nr..nr + BLOCK_SZ];
    assert input[..nr] + block == input[..nr + BLOCK_SZ];
    SpliceAppend(d0, BIN_OFF, input[..nr], block, BIN_OFF + nr);
    var rest := Copied(input, block, nr + BLOCK_SZ);
    assert input[..nr] + (block + rest) == (input[..nr] + block) + rest;
  }

  /** A short last block copied whole: the copy is complete. */
  lemma CopyShort(d0: seq<Byte>, input: seq<Byte>, prev: seq<Byte>, nr: nat,
                  block: seq<Byte>, w: seq<Byte>, d: seq<Byte>)
    requires |prev| == BLOCK_SZ && nr < BIN_SZ && nr < |input| < nr + BLOCK_SZ
    requires block == Filled(prev, input, nr, |input| - nr)
    requires w == input[..nr] + Copied(input, prev, nr)
    requires d == Splice(Splice(d0, BIN_OFF, input[..nr]), BIN_OFF + nr, block)
    ensures d == Splice(d0, BIN_OFF, w)
    ensures CopyStatus(|input|, nr) == BLOCK_SZ
  {
    SpliceAppend(d0, BIN_OFF, input[..nr], block, BIN_OFF + nr);
  }

  /** n rounded down to a whole number of blocks. */
  function RoundDown(n: nat): (q: nat)
    ensures q <= n < q + BLOCK_SZ && Aligned(q)
  {
    n / 1024 * 1024
  }

  /** n rounded up to a whole number of blocks. */
  function RoundUp(n: nat): (m: nat)
    ensures n <= m < n + BLOCK_SZ && Aligned(m)
    ensures n < BIN_SZ ==> m <= BIN_SZ
  {
    if RoundDown(n) == n then n else RoundDown(n) + BLOCK_SZ
  }

  /**
   * The payload area gi_bl2_dump_binary writes, in closed form: the input
   * cut at BIN_SZ and, when it ends inside a block, padded to a whole block
   * with the buffer's stale tail: the block before, or junk when there is
   * none.
   */
  function BinaryWrites(input: seq<Byte>, junk: seq<Byte>): (w: seq<Byte>)
    requires |junk| == BLOCK_SZ
    ensures |w| == Min(RoundUp(|input|), BIN_SZ)
    ensures forall i :: 0 <= i < Min(|input|, BIN_SZ) ==> w[i] == input[i]
    ensures 0 < |input| < BLOCK_SZ ==> w[|input|..] == junk[|input|..]
  {
    var n := |input|;
    var q := RoundDown(n);
    if n >= BIN_SZ then input[..BIN_SZ]
    else if q == n then input
    else
      var last := if q == 0 then junk else input[q - BLOCK_SZ..q];
      input + last[n - q..]
  }

  /** The status gi_bl2_dump_binary returns when no call fails, in closed form. */
  function BinaryStatus(n: nat): (r: int)
    ensures r == 0 || r == BLOCK_SZ
    ensures r == BLOCK_SZ <==> n < BIN_SZ && RoundUp(n) != n
  {
    if n >= BIN_SZ || RoundDown(n) == n then 0 else BLOCK_SZ
  }

  /** Where n falls among the blocks: in the block starting at nr. */
  lemma BlockOf(n: nat, nr: nat)
    requires Aligned(nr) && nr <= n < nr + BLOCK_SZ
    ensures RoundDown(n) == nr
  {
  }

  /** The loop stops at a whole block: it has written the closed form. */
  lemma ShapeEnd(input: seq<Byte>, junk: seq<Byte>, nr: nat)
    requires |junk| == BLOCK_SZ && Aligned(nr) && nr <= BIN_SZ && nr <= |input|
    requires nr == BIN_SZ || nr == |input|
    ensures input[..nr] == BinaryWrites(input, junk)
    ensures BinaryStatus(|input|) == 0
  {
    if nr < BIN_SZ {
      BlockOf(|input|, nr);
    }
  }

  /** The loop stops at a short block: it has written the closed form. */
  lemma ShapeShort(input: seq<Byte>, junk: seq<Byte>, prev: seq<Byte>, nr: nat)
    requires |junk| == BLOCK_SZ && |prev| == BLOCK_SZ
    requires Aligned(nr) && nr < BIN_SZ && nr < |input| < nr + BLOCK_SZ
    requires prev == if nr == 0 then junk else input[nr - BLOCK_SZ..nr]
    ensures input[..nr] + Filled(prev, input, nr, |input| - nr) == BinaryWrites(input, junk)
    ensures BinaryStatus(|input|) == BLOCK_SZ
  {
    var n := |input|;
    BlockOf(n, nr);
    assert input[..nr] + (input[nr..n] + prev[n - nr..]) == input + prev[n - nr..];
  }

  /** A whole block copied: what the loop writes from nr on is that block and then what it writes after. */
  lemma ShapeStep(input: seq<Byte>, prev: seq<Byte>, nr: nat, w: seq<Byte>, status: int)
    requires |prev| == BLOCK_SZ && nr < BIN_SZ && nr + BLOCK_SZ <= |input|
    requires input[..nr + BLOCK_SZ] + Copied(input, input[nr..nr + BLOCK_SZ], nr + BLOCK_SZ) == w
    requires CopyStatus(|input|, nr + BLOCK_SZ) == status
    ensures input[..nr] + Copied(input, prev, nr) == w
    ensures CopyStatus(|input|, nr) == status
  {
    var block := input[nr..nr + BLOCK_SZ];
    var rest := Copied(input, block, nr + BLOCK_SZ);
    assert input[..nr] + block == input[..nr + BLOCK_SZ];
    assert input[..nr] + (block + rest) == (input[..nr] + block) + rest;
  }

  /** The loop's writes from a whole-block offset on complete the closed form. */
  lemma {:induction false} CopiedShape(input: seq<Byte>, junk: seq<Byte>, prev: seq<Byte>, nr: nat)
    requires |junk| == BLOCK_SZ && |prev| == BLOCK_SZ
    requires Aligned(nr) && nr <= BIN_SZ && nr <= |input|
    requires prev == if nr == 0 then junk else input[nr - BLOCK_SZ..nr]
    ensures input[..nr] + Copied(input, prev, nr) == BinaryWrites(input, junk)
    ensures CopyStatus(|input|, nr) == BinaryStatus(|input|)
    decreases BIN_SZ - nr
  {
    var n := |input|;
    if nr >= BIN_SZ || n <= nr {
      ShapeEnd(input, junk, nr);
      assert input[..nr] + [] == input[..nr];
    } else if n < nr + BLOCK_SZ {
      ShapeShort(input, junk, prev, nr);
    } else {
      BlockBound(nr);
      CopiedShape(input, junk, input[nr..nr + BLOCK_SZ], nr + BLOCK_SZ);
      ShapeStep(input, prev, nr, BinaryWrites(input, junk), BinaryStatus(n));
    }
  }

  /** The copy loop, started at offset 0 with junk in the buffer, writes the closed form. */
  lemma BinaryClosedForm(input: seq<Byte>, junk: seq<Byte>)
    requires |junk| == BLOCK_SZ
    ensures Copied(input, junk, 0) == BinaryWrites(input, junk)
    ensures CopyStatus(|input|, 0) == BinaryStatus(|input|)
  {
    CopiedShape(input, junk, junk, 0);
    assert input[..0] + Copied(input, junk, 0) == Copied(input, junk, 0);
  }

  /**
   * The state of the copy loop of gi_bl2_dump_binary once nr bytes are
   * copied: the output holds them at BIN_OFF, and w, everything the loop
   * will write, is those bytes followed by what the rest of the loop writes
   * from a buffer still holding prev.
   */
  ghost predicate Copying(d0: seq<Byte>, input: seq<Byte>, w: seq<Byte>, nr: nat, prev: seq<Byte>, out: seq<Byte>)
  {
    nr <= |input| && nr <= BIN_SZ && |prev| == BLOCK_SZ &&
    out == Splice(d0, BIN_OFF, input[..nr]) &&
    w == input[..nr] + Copied(input, prev, nr)
  }

  /** One turn of the copy loop of gi_bl2_dump_binary: read a block, write the whole buffer. */
  method CopyBlock(fout: File, fin: File, block: array<Byte>, ghost d0: seq<Byte>, ghost w: seq<Byte>, nr: nat)
    returns (rd: int, wr: int)
    requires fout != fin && block.Length == BLOCK_SZ && nr + BLOCK_SZ <= BIN_SZ
    requires fin.pos == nr && fout.pos == BIN_OFF + nr
    requires Copying(d0, fin.data, w, nr, block[..], fout.data)
    modifies fout, fin`pos, block
    ensures fin.pos <= nr + BLOCK_SZ
    ensures rd < 0 ==> rd == -1 && ChangedOnlyIn(d0, fout.data, BIN_OFF, BIN_OFF + BIN_SZ)
    ensures rd == 0 ==> w == fin.data[..nr] && fout.data == Splice(d0, BIN_OFF, w) && CopyStatus(|fin.data|, nr) == 0
    ensures rd > 0 && wr < 0 ==> wr == -1 && ChangedOnlyIn(d0, fout.data, BIN_OFF, BIN_OFF + BIN_SZ)
    ensures rd > 0 && 0 <= wr != rd ==> wr == CopyStatus(|fin.data|, nr) && fout.data == Splice(d0, BIN_OFF, w)
    ensures rd > 0 && wr == rd ==>
      rd == BLOCK_SZ && fin.pos == nr + BLOCK_SZ && fout.pos == BIN_OFF + nr + BLOCK_SZ &&
      Copying(d0, fin.data, w, nr + BLOCK_SZ, block[..], fout.data) &&
      CopyStatus(|fin.data|, nr) == CopyStatus(|fin.data|, nr + BLOCK_SZ)
  {
    ghost var input := fin.data;
    ghost var prev := block[..];
    ghost var got;
    rd, got := ReadBlk(fin, block, BLOCK_SZ);
    wr := 0;
    if rd < 0 {
      SpliceChangesOnlyIn(d0, BIN_OFF, input[..nr], BIN_OFF, BIN_OFF + BIN_SZ);
      return;
    } else if rd == 0 {
      assert w == input[..nr] + [];
      return;
    }
    ghost var before := fout.data;
    ghost var put;
    wr, put := WriteBlk(fout, block[..], BLOCK_SZ);
    if wr < 0 {
      SpliceChangesOnlyIn(d0, BIN_OFF, input[..nr], BIN_OFF, BIN_OFF + BIN_SZ);
      SpliceChangesOnlyIn(before, BIN_OFF + nr, block[..put], BIN_OFF, BIN_OFF + BIN_SZ);
      ChangedOnlyInTrans(d0, before, fout.data, BIN_OFF, BIN_OFF + BIN_SZ);
    } else if wr != rd {
      CopyShort(d0, input, prev, nr, block[..], w, fout.data);
    } else {
      CopyWhole(d0, input, prev, nr, block[..], w, fout.data);
    }
  }

  /**
   * gi_bl2_dump_binary: copy the input to BIN_OFF in 1024-byte blocks, at
   * most BIN_SZ bytes.  Every write is of the whole buffer, so a short last
   * block is followed by stale bytes from the block before it (or by junk,
   * the buffer's uninitialised contents, when it is the first).  The status
   * is 0, or 1024 when the input ends in a short block, or -1 on an I/O
   * error.
   */
  method DumpBinary(ctx: Bl2, fout: File, fin: File, junk: seq<Byte>) returns (ret: int)
    requires fout != fin && |junk| == BLOCK_SZ
    modifies fout, fin`pos
    ensures fin.pos <= BIN_SZ
    ensures ret >= 0 ==> ret == BinaryStatus(|fin.data|)
    ensures ret >= 0 ==> fout.data == Splice(old(fout.data), BIN_OFF, BinaryWrites(fin.data, junk))
    ensures ret < 0 ==> ret == -1 && ChangedOnlyIn(old(fout.data), fout.data, BIN_OFF, BIN_OFF + BIN_SZ)
  {
    var block := new Byte[BLOCK_SZ](i requires 0 <= i < BLOCK_SZ => junk[i]);
    assert block[..] == junk;
    ghost var input, d0 := fin.data, fout.data;
    ghost var w := Copied(input, junk, 0);
    BinaryClosedForm(input, junk);
    fin.Seek(0);
    fout.Seek(BIN_OFF);

    var nr: nat := 0;
    while nr < BIN_SZ
      invariant Aligned(nr)
      invariant fin.data == input && fin.pos == nr && fout.pos == BIN_OFF + nr
      invariant Copying(d0, input, w, nr, block[..], fout.data)
      invariant CopyStatus(|input|, 0) == CopyStatus(|input|, nr)
      decreases BIN_SZ - nr
    {
      BlockBound(nr);
      var rd, wr := CopyBlock(fout, fin, block, d0, w, nr);
      if rd <= 0 {
        ret := rd;
        return;
      }
      if wr != rd {
        ret := wr;
        return;
      }
      nr := nr + rd;
    }
    assert w == input[..nr] + [];
    ret := 0;
  }

  // ---------------------------------------------------------------------
  // gi_bl2_sign

  /**
   * The hash loop of gi_bl2_sign stops only once it has fed HashCount bytes,
   * so on a file that ends before that it would spin.  It is reached only when
   * the file holds the whole header.
   */
  predicate SignTerminates(ctx: Bl2, size: nat)
  {
    size < DIGEST_OFF || RAND_SZ + ctx.hashStart + HashCount(ctx) <= size
  }

  /**
   * The bytes the hash loop of gi_bl2_sign feeds once i bytes are fed, reading
   * a file holding d in 1024-byte blocks from offset pos: it stops only when
   * count bytes or more are fed, so the last block may run past the count,
   * up to the end of the file.
   */
  function Fed(d: seq<Byte>, pos: nat, i: nat, count: nat): seq<Byte>
    requires pos + count <= |d|
    decreases count - i
  {
    if i >= count then []
    else
      var n := Min(BLOCK_SZ, |d| - (pos + i));
      d[pos + i..pos + i + n] + Fed(d, pos, i + n, count)
  }

  /** The bytes of a file holding d that gi_bl2_sign feeds to SHA-256. */
  function SignedBytes(d: seq<Byte>, ctx: Bl2): seq<Byte>
    requires DIGEST_OFF <= |d| && RAND_SZ + ctx.hashStart + HashCount(ctx) <= |d|
  {
    d[HDR_OFF..DIGEST_OFF] + Fed(d, RAND_SZ + ctx.hashStart, 0, HashCount(ctx))
  }

  /** The first n bytes of a filled buffer are the bytes read. */
  lemma FilledPrefix(prev: seq<Byte>, d: seq<Byte>, pos: nat, n: nat)
    requires n <= |prev| && (n == 0 || pos + n <= |d|)
    ensures n > 0 ==> Filled(prev, d, pos, n)[..n] == d[pos..pos + n]
  {
  }

  /** The hash loop, i bytes in, has fed d[pos..pos + i] of fed, the bytes it feeds in all. */
  ghost predicate Feeding(d: seq<Byte>, pos: nat, count: nat, i: nat, fed: seq<Byte>)
    requires pos + count <= |d|
  {
    pos + i <= |d| && fed == d[pos..pos + i] + Fed(d, pos, i, count)
  }

  /** One more block fed: the bytes still to feed lose it. */
  lemma FedStep(d: seq<Byte>, pos: nat, i: nat, count: nat, n: nat)
    requires pos + count <= |d| && i < count && pos + i <= |d| && n == Min(BLOCK_SZ, |d| - (pos + i))
    ensures d[pos..pos + i] + Fed(d, pos, i, count) == d[pos..pos + i + n] + Fed(d, pos, i + n, count)
    ensures forall fed :: Feeding(d, pos, count, i, fed) ==> Feeding(d, pos, count, i + n, fed)
  {
    var rest := Fed(d, pos, i + n, count);
    calc {
      d[pos..pos + i] + Fed(d, pos, i, count);
      d[pos..pos + i] + (d[pos + i..pos + i + n] + rest);
      { AppendAssoc(d[pos..pos + i], d[pos + i..pos + i + n], rest); }
      (d[pos..pos + i] + d[pos + i..pos + i + n]) + rest;
      { SliceJoin(d, pos, pos + i, pos + i + n); }
      d[pos..pos + i + n] + rest;
    }
  }

  /** One more block fed: the bytes fed grow by it. */
  lemma FedMore(d: seq<Byte>, pos: nat, i: nat, n: nat, before: seq<Byte>)
    requires pos + i + n <= |d|
    ensures (before + d[pos..pos + i]) + d[pos + i..pos + i + n] == before + d[pos..pos + i + n]
  {
    AppendAssoc(before, d[pos..pos + i], d[pos + i..pos + i + n]);
    SliceJoin(d, pos, pos + i, pos + i + n);
  }

  /**
   * One turn of the hash loop of gi_bl2_sign: read a block of the file at
   * pos and feed what was read.  Before the count is reached the file still
   * has bytes, so a successful read gets some: exactly the next block Fed
   * takes.
   */
  method HashBlock(f: File, tmp: array<Byte>, md: MdCtx, ghost start: nat, ghost i: nat, ghost count: nat)
    returns (nr: int, ok: int)
    requires tmp.Length == BLOCK_SZ && start + count <= |f.data| && i < count && f.pos == start + i
    modifies f`pos, tmp, md
    ensures nr < 0 ==> nr == -1
    ensures nr >= 0 ==> ok == 0 || ok == 1
    ensures nr >= 0 && ok == 1 ==>
      0 < nr && nr == Min(BLOCK_SZ, |f.data| - (start + i)) && f.pos == start + i + nr &&
      md.fed == old(md.fed) + f.data[start + i..start + i + nr]
  {
    ghost var prev := tmp[..];
    ghost var got;
    nr, got := ReadBlk(f, tmp, BLOCK_SZ);
    ok := 0;
    if nr < 0 {
      return;
    }
    FilledPrefix(prev, f.data, start + i, nr);
    ok := md.DigestUpdate(tmp[..nr]);
  }

  /**
   * The header part of gi_bl2_sign: read the 64 header bytes after the salt
   * and feed them.  A short read ends signing with its byte count as status.
   */
  method HashHeader(f: File, tmp: array<Byte>, md: MdCtx) returns (done: bool, ret: int)
    requires tmp.Length == BLOCK_SZ
    modifies f`pos, tmp, md
    ensures done ==> DIGEST_OFF <= |f.data| && md.fed == old(md.fed) + f.data[HDR_OFF..DIGEST_OFF]
    ensures !done ==> ret < HDR_SZ && (DIGEST_OFF <= |f.data| ==> ret < 0)
  {
    f.Seek(RAND_SZ);
    ghost var prev := tmp[..];
    var nr;
    ghost var got;
    nr, got := ReadBlk(f, tmp, HDR_SZ);
    if nr < 0 || nr != HDR_SZ {
      done, ret := false, nr;
      return;
    }
    FilledPrefix(prev, f.data, RAND_SZ, HDR_SZ);
    ret := md.DigestUpdate(tmp[..nr]);
    if ret != 1 {
      done := false;
      ret := ErrorStatus();
      return;
    }
    done := true;
  }

  /**
   * The hash loop of gi_bl2_sign: feed the file from RAND_SZ + hash_start on
   * until at least HashCount bytes are fed.
   */
  method HashPayload(ctx: Bl2, f: File, tmp: array<Byte>, md: MdCtx) returns (ret: int)
    requires tmp.Length == BLOCK_SZ && RAND_SZ + ctx.hashStart + HashCount(ctx) <= |f.data|
    modifies f`pos, tmp, md
    ensures ret == 1 || ret < 0
    ensures ret == 1 ==> md.fed == old(md.fed) + Fed(f.data, RAND_SZ + ctx.hashStart, 0, HashCount(ctx))
  {
    ghost var d, before := f.data, md.fed;
    ghost var start, count := RAND_SZ + ctx.hashStart, HashCount(ctx);
    ghost var fed := Fed(d, start, 0, count);
    f.Seek(RAND_SZ + ctx.hashStart);
    var i: nat := 0;
    while i < HashCount(ctx)
      invariant f.pos == start + i
      invariant Feeding(d, start, count, i, fed)
      invariant md.fed == before + d[start..start + i]
      decreases count - i
    {
      var nr, ok := HashBlock(f, tmp, md, start, i, count);
      if nr < 0 {
        ret := nr;
        return;
      }
      if ok != 1 {
        ret := ErrorStatus();
        return;
      }
      FedStep(d, start, i, count, nr);
      FedMore(d, start, i, nr, before);
      i := i + nr;
    }
    assert fed == d[start..start + i] + [];
    ret := 1;
  }

  /**
   * gi_bl2_sign: hash the header and then the file from RAND_SZ + hash_start
   * on in 1024-byte blocks, and write the SHA-256 digest at DIGEST_OFF.
   */
  method Sign(ctx: Bl2, f: File, sha256: seq<Byte> -> Digest) returns (ret: int)
    requires SignTerminates(ctx, |f.data|)
    modifies f
    ensures |old(f.data)| < DIGEST_OFF ==> ret < HDR_SZ && f.data == old(f.data)
    ensures |old(f.data)| >= DIGEST_OFF ==> ret <= 0
    ensures |old(f.data)| >= DIGEST_OFF && ret == 0 ==>
      f.data == Splice(old(f.data), DIGEST_OFF, sha256(SignedBytes(old(f.data), ctx)))
    ensures ret < 0 ==> ChangedOnlyIn(old(f.data), f.data, DIGEST_OFF, DIGEST_OFF + SHA2_LEN)
  {
    ghost var d := f.data;
    var md := NewCtx();
    if md == null {
      ret := ErrorStatus();
      return;
    }
    ret := md.DigestInit();
    if ret != 1 {
      ret := ErrorStatus();
      return;
    }
    var tmp := new Byte[BLOCK_SZ];
    var done;
    done, ret := HashHeader(f, tmp, md);
    if !done {
      return;
    }
    ret := HashPayload(ctx, f, tmp, md);
    if ret != 1 {
      return;
    }
    assert md.fed == SignedBytes(d, ctx);

    var hash;
    ret, hash := md.DigestFinal(sha256);
    if ret != 1 {
      ret := ErrorStatus();
      return;
    }
    f.Seek(RAND_SZ + HDR_SZ);
    var nr;
    ghost var put;
    nr, put := WriteBlk(f, hash, SHA2_LEN);
    if nr != SHA2_LEN {
      SpliceChangesOnlyIn(d, DIGEST_OFF, hash[..put], DIGEST_OFF, DIGEST_OFF + SHA2_LEN);
      ret := nr;
      return;
    }
    ret := 0;
  }

  // ---------------------------------------------------------------------
  // gi_bl2_create_img

  /** The output file after the zero-fill and the header stage. */
  function Headed(salt: seq<Byte>, payloadsz: nat): (d: seq<Byte>)
    requires |salt| == RAND_SZ
    ensures |d| == IMG_TOTSZ
  {
    Splice(Zeros(IMG_TOTSZ), 0, SaltedHeader(salt, InitialContext(payloadsz)))
  }

  /** ... then the key stage, with done[k] bytes of placeholder k written. */
  function Keyed(salt: seq<Byte>, payloadsz: nat, done: seq<nat>): (d: seq<Byte>)
    requires |salt| == RAND_SZ && KeyCounts(done)
    ensures |d| == IMG_TOTSZ
  {
    KeyImage(Headed(salt, payloadsz), done)
  }

  /** ... then the payload stage. */
  function Loaded(salt: seq<Byte>, input: seq<Byte>, junk: seq<Byte>, done: seq<nat>): (d: seq<Byte>)
    requires |salt| == RAND_SZ && |junk| == BLOCK_SZ && KeyCounts(done)
    ensures |d| == IMG_TOTSZ
  {
    Splice(Keyed(salt, |input|, done), BIN_OFF, BinaryWrites(input, junk))
  }

  /** ... then the digest: the finished image. */
  function Image(salt: seq<Byte>, input: seq<Byte>, junk: seq<Byte>, done: seq<nat>,
                 sha256: seq<Byte> -> Digest): (d: seq<Byte>)
    requires |salt| == RAND_SZ && |junk| == BLOCK_SZ && KeyCounts(done)
    ensures |d| == IMG_TOTSZ
  {
    LayoutConstants(|input|);
    var l := Loaded(salt, input, junk, done);
    Splice(l, DIGEST_OFF, sha256(SignedBytes(l, InitialContext(|input|))))
  }

  /** Where gi_bl2_create_img stopped. */
  datatype Stage = AtTruncate | AtZeroFill | AtHeader | AtKey | AtBinary | AtSign | Finished

  /**
   * gi_bl2_create_img on an input and an output file already open: empty the
   * output, size it to the image with zeros, and run the stages in order.
   * The first negative status stops the build and is returned; nothing
   * written before is undone.  salt stands for the random bytes and junk for
   * the initial contents of the payload block buffer.
   */
  method CreateImg(fin: File, fout: File, salt: seq<Byte>, junk: seq<Byte>, sha256: seq<Byte> -> Digest)
    returns (ret: int, ghost stopped: Stage, ghost keyDone: seq<nat>)
    requires fin != fout
    requires |salt| == RAND_SZ && |junk| == BLOCK_SZ
    modifies fin`pos, fout
    ensures ret <= 0 && (ret == 0 <==> stopped == Finished)
    ensures stopped != AtKey
    ensures stopped == AtTruncate ==> ret == -1 && fout.data == old(fout.data)
    ensures stopped == AtZeroFill ==> ret == -1 && fout.data == []
    ensures stopped == AtHeader ==> ChangedOnlyIn(Zeros(IMG_TOTSZ), fout.data, 0, DIGEST_OFF)
    ensures stopped in {AtBinary, AtSign, Finished} ==> KeyCounts(keyDone)
    ensures stopped == AtBinary ==>
      ChangedOnlyIn(Keyed(salt, |fin.data|, keyDone), fout.data, BIN_OFF, IMG_TOTSZ)
    ensures stopped == AtSign ==>
      ChangedOnlyIn(Loaded(salt, fin.data, junk, keyDone), fout.data, DIGEST_OFF, DIGEST_OFF + SHA2_LEN)
    ensures stopped == Finished ==> fout.data == Image(salt, fin.data, junk, keyDone, sha256)
  {
    ghost var input := fin.data;
    keyDone := [];
    ret := fout.Truncate(0);
    if ret < 0 {
      stopped := AtTruncate;
      return;
    }

    var ctx;
    ret, ctx := Init(fin);
    // gi_bl2_init cannot fail
    LayoutConstants(|fin.data|);

    ret := fout.Truncate(ctx.totlen + RAND_SZ);
    if ret < 0 {
      stopped := AtZeroFill;
      return;
    }
    assert fout.data == Zeros(IMG_TOTSZ);

    ghost var hdrDone;
    ret, hdrDone := DumpHdr(ctx, fout, salt);
    if ret < 0 {
      SpliceChangesOnlyIn(Zeros(IMG_TOTSZ), 0, SaltedHeader(salt, ctx)[..hdrDone], 0, DIGEST_OFF);
      stopped := AtHeader;
      return;
    }
    assert SaltedHeader(salt, ctx)[..hdrDone] == SaltedHeader(salt, ctx);
    assert fout.data == Headed(salt, |input|);

    // gi_bl2_dump_key returns 0 when RSA is off, as it always is here
    ret, keyDone := DumpKey(ctx, fout);
    assert fout.data == Keyed(salt, |input|, keyDone);

    ret := DumpBinary(ctx, fout, fin, junk);
    if ret < 0 {
      stopped := AtBinary;
      return;
    }
    assert fout.data == Loaded(salt, input, junk, keyDone);

    ret := Sign(ctx, fout, sha256);
    stopped := if ret == 0 then Finished else AtSign;
  }

  /** gi_bl2_extract: not implemented; it fails without touching either file. */
  method Extract(fin: string, fout: string) returns (ret: int)
    ensures ret == -1
  {
    ret := -1;
  }
}
