/**
 * The 64-byte "@AML" header: the fields gi_bl2_dump_hdr stores into a zeroed
 * buffer, each at a fixed offset, little-endian and truncated to its width.
 */
module Header {
  import opened Bytes
  import opened Layout

  /** Where a field lies in the header: its offset and its width in bytes. */
  datatype Slot = Slot(off: nat, width: nat)

  const FIELD_COUNT: nat := 15

  /** The header fields, in the order gi_bl2_dump_hdr stores them. */
  const FIELDS: seq<Slot> := [
    Slot(0x00, 4),  // magic "@AML"
    Slot(0x0a, 1),  // 1
    Slot(0x0b, 1),  // 1
    Slot(0x08, 2),  // header size
    Slot(0x10, 4),  // signature type: SHA-256, no RSA
    Slot(0x20, 4),  // key type: none
    Slot(0x28, 4),  // key header + key size
    Slot(0x18, 4),  // digest slot size
    Slot(0x14, 4),  // header size
    Slot(0x1c, 2),  // start of the hashed bytes
    Slot(0x24, 2),  // key offset
    Slot(0x38, 2),  // payload size
    Slot(0x34, 2),  // payload offset
    Slot(0x04, 2),  // total length
    Slot(0x2c, 2)   // end of the hashed bytes
  ]

  /** The values a header records, one per field of FIELDS. */
  datatype Info = Info(
    magic: nat, version0: nat, version1: nat, hdrSize: nat, sigType: nat,
    keyType: nat, keySize: nat, digestSize: nat, hdrLen: nat, hashStart: nat,
    keyOffset: nat, binSize: nat, binOffset: nat, totlen: nat, hashEnd: nat)

  function Values(i: Info): (v: seq<nat>)
    ensures |v| == FIELD_COUNT
  {
    [i.magic, i.version0, i.version1, i.hdrSize, i.sigType,
     i.keyType, i.keySize, i.digestSize, i.hdrLen, i.hashStart,
     i.keyOffset, i.binSize, i.binOffset, i.totlen, i.hashEnd]
  }

  function FromValues(v: seq<nat>): Info
    requires |v| == FIELD_COUNT
  {
    Info(v[0], v[1], v[2], v[3], v[4], v[5], v[6], v[7], v[8], v[9],
         v[10], v[11], v[12], v[13], v[14])
  }

  /** The header gi_bl2_dump_hdr writes for context c (offsets are relative to the end of the salt). */
  function InfoOf(c: Bl2): Info
  {
    Info(MAGIC, 1, 1, HDR_SZ, 0,
         0, KEYHDR_SZ + KEY_SZ, HASH_SZ, HDR_SZ, c.hashStart,
         HDR_SZ + HASH_SZ, BIN_SZ, HDR_SZ + HASH_SZ + KEYHDR_SZ + KEY_SZ, c.totlen, c.hashEnd)
  }

  predicate Apart(a: Slot, b: Slot) { a.off + a.width <= b.off || b.off + b.width <= a.off }

  /** Every slot lies inside the header. */
  predicate InHeader(slots: seq<Slot>)
  {
    forall k :: 0 <= k < |slots| ==> slots[k].off + slots[k].width <= HDR_SZ
  }

  /** Every slot lies inside the header and no two slots share a byte. */
  predicate WellPlaced(slots: seq<Slot>)
  {
    InHeader(slots) && forall a, b :: 0 <= a < b < |slots| ==> Apart(slots[a], slots[b])
  }

  lemma FieldsInHeader()
    ensures |FIELDS| == FIELD_COUNT && InHeader(FIELDS)
  {
  }

  lemma FieldsWellPlaced()
    ensures |FIELDS| == FIELD_COUNT && WellPlaced(FIELDS)
  {
    var f := FIELDS;
    forall a, b | 0 <= a < b < |f| ensures Apart(f[a], f[b]) {
      FieldApart(a, b);
    }
  }

  lemma FieldApart(a: nat, b: nat)
    requires a < b < FIELD_COUNT
    ensures Apart(FIELDS[a], FIELDS[b])
  {
    var f := FIELDS;
    if a == 0 {} else if a == 1 {} else if a == 2 {} else if a == 3 {} else if a == 4 {}
    else if a == 5 {} else if a == 6 {} else if a == 7 {} else if a == 8 {} else if a == 9 {}
    else if a == 10 {} else if a == 11 {} else if a == 12 {} else {}
  }

  /** bh_wr: store val, cast to width bytes, little-endian at the slot. */
  function Store(h: seq<Byte>, s: Slot, val: nat): (r: seq<Byte>)
    requires s.off + s.width <= |h|
    ensures |r| == |h|
  {
    h[..s.off] + LE(val % Pow256(s.width), s.width) + h[s.off + s.width..]
  }

  /** h after the first n slots are stored with the values vals, in order. */
  function Stored(h: seq<Byte>, slots: seq<Slot>, vals: seq<nat>, n: nat): (r: seq<Byte>)
    requires |h| == HDR_SZ && InHeader(slots) && |vals| == |slots| && n <= |slots|
    ensures |r| == HDR_SZ
  {
    if n == 0 then h
    else Store(Stored(h, slots, vals, n - 1), slots[n - 1], vals[n - 1])
  }

  /** The header buffer once the first k fields hold their values. */
  function StoredFields(vals: seq<nat>, k: nat): (h: seq<Byte>)
    requires |vals| == FIELD_COUNT && k <= FIELD_COUNT
    ensures |h| == HDR_SZ
  {
    FieldsInHeader();
    Stored(Zeros(HDR_SZ), FIELDS, vals, k)
  }

  /** The 64 header bytes for i: every field stored into a zeroed buffer. */
  function HeaderBytes(i: Info): (h: seq<Byte>)
    ensures |h| == HDR_SZ
  {
    StoredFields(Values(i), FIELD_COUNT)
  }

  /** bh_rd: the little-endian value at a slot. */
  function Load(h: seq<Byte>, s: Slot): nat
    requires s.off + s.width <= |h|
  {
    FromLE(h[s.off..s.off + s.width])
  }

  /** Read every field of a header back. */
  function Decode(h: seq<Byte>): Info
    requires |h| == HDR_SZ
  {
    FieldsInHeader();
    FromValues(seq(FIELD_COUNT, k requires 0 <= k < FIELD_COUNT => Load(h, FIELDS[k])))
  }

  predicate Covered(slots: seq<Slot>, n: nat, i: int)
    requires n <= |slots|
  {
    exists k :: 0 <= k < n && slots[k].off <= i < slots[k].off + slots[k].width
  }

  /** A stored slot reads back as its value cast to its width. */
  lemma StoreLoad(h: seq<Byte>, s: Slot, val: nat)
    requires s.off + s.width <= |h|
    ensures Load(Store(h, s, val), s) == val % Pow256(s.width)
  {
    var r := Store(h, s, val);
    assert r[s.off..s.off + s.width] == LE(val % Pow256(s.width), s.width);
    FromLEOfLE(val % Pow256(s.width), s.width);
  }

  /** Storing a slot leaves every byte outside it alone. */
  lemma StoreOutside(h: seq<Byte>, s: Slot, val: nat)
    requires s.off + s.width <= |h|
    ensures forall i :: 0 <= i < |h| && (i < s.off || s.off + s.width <= i) ==> Store(h, s, val)[i] == h[i]
  {
  }

  /** Storing a slot leaves every slot apart from it alone. */
  lemma StoreFrame(h: seq<Byte>, s: Slot, val: nat, t: Slot)
    requires s.off + s.width <= |h| && t.off + t.width <= |h| && Apart(s, t)
    ensures Store(h, s, val)[t.off..t.off + t.width] == h[t.off..t.off + t.width]
  {
    StoreOutside(h, s, val);
  }

  /** After storing the first n slots, each of them holds its value cast to its width. */
  lemma {:induction false} StoredReadBack(h: seq<Byte>, slots: seq<Slot>, vals: seq<nat>, n: nat)
    requires |h| == HDR_SZ && WellPlaced(slots) && |vals| == |slots| && n <= |slots|
    ensures forall k :: 0 <= k < n ==>
      Load(Stored(h, slots, vals, n), slots[k]) == vals[k] % Pow256(slots[k].width)
  {
    if n > 0 {
      StoredReadBack(h, slots, vals, n - 1);
      var prev := Stored(h, slots, vals, n - 1);
      var last := slots[n - 1];
      assert Stored(h, slots, vals, n) == Store(prev, last, vals[n - 1]);
      forall k | 0 <= k < n
        ensures Load(Store(prev, last, vals[n - 1]), slots[k]) == vals[k] % Pow256(slots[k].width)
      {
        if k < n - 1 {
          StoreFrame(prev, last, vals[n - 1], slots[k]);
        } else {
          StoreLoad(prev, last, vals[n - 1]);
        }
      }
    }
  }

  /** After storing the first n slots, a byte no slot covers is the buffer's original byte. */
  lemma {:induction false} StoredPadding(h: seq<Byte>, slots: seq<Slot>, vals: seq<nat>, n: nat)
    requires |h| == HDR_SZ && WellPlaced(slots) && |vals| == |slots| && n <= |slots|
    ensures forall i :: 0 <= i < HDR_SZ && !Covered(slots, n, i) ==> Stored(h, slots, vals, n)[i] == h[i]
  {
    if n > 0 {
      StoredPadding(h, slots, vals, n - 1);
      var prev := Stored(h, slots, vals, n - 1);
      var last := slots[n - 1];
      assert Stored(h, slots, vals, n) == Store(prev, last, vals[n - 1]);
      forall i | 0 <= i < HDR_SZ && !Covered(slots, n, i) ensures Store(prev, last, vals[n - 1])[i] == h[i] {
        assert !Covered(slots, n - 1, i);
        StoreOutside(prev, last, vals[n - 1]);
      }
    }
  }

  /** Every field decodes to the value stored, cast to the field's width. */
  lemma HeaderFieldsReadBack(i: Info)
    ensures forall k :: 0 <= k < FIELD_COUNT ==>
      Load(HeaderBytes(i), FIELDS[k]) == Values(i)[k] % Pow256(FIELDS[k].width)
  {
    FieldsWellPlaced();
    StoredReadBack(Zeros(HDR_SZ), FIELDS, Values(i), FIELD_COUNT);
  }

  /** Every value of i fits the width of its field. */
  predicate Fits(i: Info)
  {
    forall k :: 0 <= k < FIELD_COUNT ==> Values(i)[k] < Pow256(FIELDS[k].width)
  }

  lemma ModSmall(x: nat, p: nat)
    requires x < p
    ensures x % p == x
  {
  }

  /** Decoding an encoded header gives back every value that fits its field. */
  lemma HeaderRoundTrip(i: Info)
    requires Fits(i)
    ensures Decode(HeaderBytes(i)) == i
  {
    HeaderFieldsReadBack(i);
    var v := seq(FIELD_COUNT, k requires 0 <= k < FIELD_COUNT => Load(HeaderBytes(i), FIELDS[k]));
    forall k | 0 <= k < FIELD_COUNT ensures v[k] == Values(i)[k] {
      ModSmall(Values(i)[k], Pow256(FIELDS[k].width));
    }
    assert v == Values(i);
  }

  /** The magic field spells "@AML". */
  lemma HeaderMagic(i: Info)
    requires i.magic == MAGIC
    ensures HeaderBytes(i)[..4] == ['@' as Byte, 'A' as Byte, 'M' as Byte, 'L' as Byte]
  {
    HeaderFieldsReadBack(i);
    var h := HeaderBytes(i);
    assert Pow256(4) == 0x1_0000_0000;
    assert Load(h, FIELDS[0]) == MAGIC;
    LEOfFromLE(h[0..4]);
    assert h[..4] == LE(MAGIC, 4);
    assert LE(MAGIC, 4) == [0x40, 0x41, 0x4D, 0x4C];
  }

  /** Every header byte no field covers is zero. */
  lemma HeaderPadding(i: Info)
    ensures forall j :: 0 <= j < HDR_SZ && !Covered(FIELDS, FIELD_COUNT, j) ==> HeaderBytes(i)[j] == 0
  {
    FieldsWellPlaced();
    StoredPadding(Zeros(HDR_SZ), FIELDS, Values(i), FIELD_COUNT);
  }

  /**
   * The header of a context from gi_bl2_init: every value fits, so it decodes
   * to exactly what was written.
   */
  lemma InitialHeader(payloadsz: nat)
    ensures var i := InfoOf(InitialContext(payloadsz));
      Fits(i) &&
      i == Info(MAGIC, 1, 1, 0x40, 0, 0, 0xDB0, 0x200, 0x40, 0x60, 0x240, 0xB000, 0xFF0, 0xBFF0, 0xBF90) &&
      Decode(HeaderBytes(i)) == i
  {
    var i := InfoOf(InitialContext(payloadsz));
    assert Pow256(1) == 0x100 && Pow256(2) == 0x10000 && Pow256(4) == 0x1_0000_0000;
    assert Fits(i);
    HeaderRoundTrip(i);
  }

  /** bh_wr(h, 8 * width, off, val) on the header buffer. */
  method PutLE(h: array<Byte>, off: nat, width: nat, val: nat)
    requires off + width <= h.Length
    modifies h
    ensures h[..] == Store(old(h[..]), Slot(off, width), val)
  {
    var b := LE(val % Pow256(width), width);
    forall k | 0 <= k < width {
      h[off + k] := b[k];
    }
    assert h[..] == old(h[..])[..off] + b + old(h[..])[off + width..];
  }
}
