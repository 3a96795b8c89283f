# A verified model of gxlimg's BL2 image builder

`bl2.c` builds an Amlogic BL2 boot image. The image is always 0xC000 bytes:

| range | contents |
|---|---|
| [0x0000, 0x0010) | a random salt |
| [0x0010, 0x0050) | a 64-byte "@AML" header |
| [0x0050, 0x0250) | the digest slot; its first 32 bytes hold a SHA-256 digest |
| [0x0250, 0x1000) | a key header and key area, zero except for three placeholder words |
| [0x1000, 0xC000) | the payload, copied from the input file |

`gi_bl2_create_img` empties the output file and zero-fills it to 0xC000 bytes. It then runs four stages in order, each seeking to an absolute offset and writing there:

1. `gi_bl2_dump_hdr`
2. `gi_bl2_dump_key`
3. `gi_bl2_dump_binary`
4. `gi_bl2_sign`

The first negative status stops the build, and nothing already written is undone.

The model is imperative, like the source:

- A file is a `Posix.File` object: its contents (`seq<Byte>`, since the file grows and shrinks) and the offset of the descriptor open on it.
- `read`, `write`, `lseek` and `ftruncate` are methods on it. A call may fail and change nothing; a successful read or write may be short.
- The C functions are methods with the same loops. Each is proved against a specification function of the old state:
  - `Filled` and `Splice` for the block helpers;
  - `HeaderBytes` for the header;
  - `KeyImage` for the key placeholders;
  - `BinaryWrites` and `BinaryStatus` for the payload copy;
  - `SignedBytes` for the signer;
  - `Image` for the whole build.
- The lemmas in `ImageProps` then say what a finished image holds, byte by byte, and what its digest covers.

Modules:

- `bytes.dfy`: bytes, little-endian words, and `Splice`, which gives a file's contents after a write at an offset.
- `posix.dfy`: the file and its system calls.
- `evp.dfy`: the OpenSSL digest context, which records the bytes fed to it. SHA-256 is a function passed in.
- `layout.dfy`: the layout macros and the `struct bl2` context.
- `header.dfy`: the 15 header fields, `bh_wr`, and decoding.
- `bl2.dfy`: the functions of `bl2.c`.
- `image_props.dfy`: properties of the finished image.

Behaviour worth knowing, as the code has it:

- **Hashed range.**
  - The hash loop counts `hash_end - hash_start = 0xBF90 - 0x60 = 0xBF30` bytes, in 1024-byte blocks from 0x70.
  - It stops only once that count is reached, and it does not trim its last block.
  - So on a 0xC000-byte file the digest covers [0x10, 0x50) followed by [0x70, 0xC000). That runs past `hash_end` to the end of the file (`ImageProps.StandardSignedBytes`).
- **Short last payload block.**
  - `gi_bl2_dump_binary` always writes the whole 1024-byte buffer. A short last block is therefore followed by stale bytes: the same positions of the block before it, or the buffer's uninitialised contents when it is the first block.
  - It then returns 1024. That is not negative, so the build goes on (`ImageProps.PayloadCases`).
  - Input beyond 0xB000 bytes is never read.
- **Header read in `gi_bl2_sign`.** A short header read is returned as a status of its byte count, from 0 to 63, with nothing written. `gi_bl2_create_img` always hands it a 0xC000-byte file, so this does not happen there.
- **Key placeholders.** `gi_bl2_dump_key` ignores the results of its three writes and returns 0. The model therefore records how many bytes of each word reached the file, and the image function is parameterised by those counts.

## Model

| member | source | states |
|---|---|---|
| Layout.LayoutConstants | bl2.c:23-32 | The region sizes add up to 0xC000 with a 0xB000-byte payload at 0x1000. Whatever the input size, the context has totlen 0xBFF0 (plus the salt, 0xC000), hash_start 0x60, hash_end 0xBF90, a hash count of 0xBF30 and RSA off. The hashed bytes start right after the 32-byte digest. |
| Bl2Image.Init | bl2.c:55-69 | gi_bl2_init returns 0 with the context fixed by the layout and the input's size as payload size. The input's offset is left at its end. |
| Posix.File.SeekEnd | bl2.c:59 | lseek to the end returns the file size. |
| Posix.File.Seek | bl2.c:242 | lseek(SEEK_SET) on a regular file moves the offset to the given value. |
| Posix.File.Read | bl2.c:87 | A failed read returns -1 and changes nothing. Otherwise it moves at most n bytes and no more than are left, and at least one unless at end of file. Exactly those file bytes land in the buffer, and the rest of the buffer is untouched. |
| Posix.File.Write | bl2.c:110 | A failed write returns -1 and changes nothing. Otherwise some prefix of the buffer, non-empty if the buffer is, replaces the bytes at the offset; the file grows if needed, and the offset moves past it. |
| Posix.File.Truncate | bl2.c:313 | ftruncate returns 0 and sets the length: cut, or zero-extended. Or it returns -1 and changes nothing. |
| Bl2Image.ReadBlk | bl2.c:81-94 | gi_bl2_read_blk returns min(sz, bytes left) and the buffer starts with exactly those bytes of the file. Or it returns -1 after fewer than sz bytes. The offset moves by the bytes read. |
| Bl2Image.WriteBlk | bl2.c:104-117 | gi_bl2_write_blk writes blk[0..sz) at the offset and returns sz. Or it returns -1 after writing a proper prefix. Either way the file is the old file with the bytes written spliced in at the offset. |
| Header.PutLE | bl2.c:18-19 | bh_wr changes exactly the field's bytes: they become the value cast to the field's width, little-endian. |
| Bytes.FromLEOfLE | bl2.c:18-21 | bh_rd of what bh_wr stored gives the value back when it fits the width. |
| Header.StoreLoad | bl2.c:18-21 | A stored field reads back as its value modulo 256^width. |
| Header.FieldsWellPlaced | bl2.c:136-150 | All 15 header fields lie inside the 64-byte buffer, and no two share a byte. |
| Header.StoredReadBack | bl2.c:136-150 | After storing the first n fields, each of them reads back as its value cast to its width. |
| Header.HeaderFieldsReadBack | bl2.c:136-150 | Every field of an encoded header reads back as the value stored, cast to its width. |
| Header.HeaderRoundTrip | bl2.c:136-150 | Decoding an encoded header gives back every value that fits its field. |
| Header.HeaderPadding | bl2.c:121 | Every header byte that no field covers stays zero. |
| Header.HeaderMagic | bl2.c:136 | The first four header bytes spell '@', 'A', 'M', 'L'. |
| Header.InitialHeader | bl2.c:136-150 | The header of the gi_bl2_init context records magic, 1, 1, 0x40, 0, 0, 0xDB0, 0x200, 0x40, 0x60, 0x240, 0xB000, 0xFF0, 0xBFF0 and 0xBF90. Every value fits its field, so it decodes to exactly these. |
| Bl2Image.FillHeader | bl2.c:121-150 | The header buffer, zeroed and then filled by the 15 bh_wr calls, is the encoded header of the context. |
| Bl2Image.DumpHdr | bl2.c:119-164 | With RSA set it returns -EINVAL and touches nothing. Otherwise the file is the old file with a prefix of salt ++ header written at 0. It returns 0 when all 80 bytes went out and -1 when not. |
| Bl2Image.DumpKey | bl2.c:166-186 | With RSA set it returns -EINVAL and touches nothing. Otherwise it returns 0, and the file holds a prefix of each little-endian placeholder word at its slot; the prefix is whatever part of each write went through. |
| ImageProps.KeySlotsPlaced | bl2.c:174-184 | The placeholders sit at 0x268, 0x8FC and 0xB30. Each is 4 bytes inside [0x250, 0x1000), and no two overlap. |
| Bl2Image.BinaryWrites | bl2.c:201-212 | The payload written is min(n rounded up to 1024, 0xB000) bytes and starts with the input, cut at 0xB000. For an input shorter than one block, the tail is the buffer's initial junk. |
| Bl2Image.BinaryStatus | bl2.c:201-217 | The copy status is 0 or 1024. It is 1024 exactly when the input is shorter than 0xB000 and not a whole number of blocks. |
| Bl2Image.CopiedShape | bl2.c:201-212 | From any whole-block offset, with the buffer holding the previous block, the rest of the copy loop completes the closed form of the payload and its status. |
| Bl2Image.BinaryClosedForm | bl2.c:201-217 | The block-by-block copy loop, started at 0 with junk in the buffer, writes exactly the closed-form payload and returns the closed-form status. |
| Bl2Image.CopyBlock | bl2.c:202-211 | One turn of the copy loop reads a block and writes the whole buffer. Each outcome is stated: read error, end of input, write error, short last block, and a whole block that keeps the loop's invariant. |
| Bl2Image.DumpBinary | bl2.c:188-218 | gi_bl2_dump_binary returns BinaryStatus, with the closed-form payload written at 0x1000. Or it returns -1, with nothing outside [0x1000, 0xC000) changed. The input offset never passes 0xB000. |
| ImageProps.PayloadCases | bl2.c:201-217 | Input of 0xB000 bytes or more is cut at 0xB000, with status 0. Whole blocks are copied as they are, with status 0. Otherwise the last block is written whole, each tail byte repeating the byte one block earlier (or the junk byte), and the status is 1024. |
| Bl2Image.HashHeader | bl2.c:241-253 | It feeds the 64 header bytes at 0x10, or stops. A short read gives a status below 64, and any other failure a negative status. |
| Bl2Image.HashBlock | bl2.c:258-268 | One turn of the hash loop feeds min(1024, bytes left), a non-zero count, from the current offset. Or it reports the failure. |
| Bl2Image.HashPayload | bl2.c:255-269 | The hash loop feeds exactly Fed, the blocks from 0x70 until the count is reached. Or it returns a negative status. |
| ImageProps.FedRange | bl2.c:257-269 | The loop feeds the count rounded up to a whole block, cut only by the end of the file. It is one contiguous range of the file. |
| ImageProps.StandardSignedBytes | bl2.c:241-269 | On a 0xC000-byte file the hashed bytes are file[0x10..0x50) followed by file[0x70..0xC000). |
| Bl2Image.Sign | bl2.c:220-290 | Success writes sha256(file[0x10..0x50) ++ Fed) into [0x50, 0x70) and returns 0. Failure changes nothing outside [0x50, 0x70). A file ending before 0x50 is left alone with a status below 64. |
| ImageProps.SignIgnoresDigest | bl2.c:277-279 | Writing any digest into the slot leaves the hashed bytes unchanged: the slot is disjoint from them. |
| ImageProps.ImageVerifies | bl2.c:220-290 | The digest in a finished image is sha256 of that image's own hashed bytes, and signing the image again leaves it unchanged. |
| Evp.NewCtx | bl2.c:229 | EVP_MD_CTX_new gives a fresh, empty context or null. |
| Evp.MdCtx.DigestInit | bl2.c:235 | EVP_DigestInit_ex returns 1 with nothing fed, or 0. |
| Evp.MdCtx.DigestUpdate | bl2.c:249 | EVP_DigestUpdate returns 1 having appended the bytes to those fed, or 0 with nothing added. |
| Evp.MdCtx.DigestFinal | bl2.c:271 | EVP_DigestFinal_ex returns 1 and the SHA-256 of everything fed since init, or 0. |
| Evp.ErrorStatus | ssl.h:7-14 | The status SSLERR leaves is negative. |
| Bl2Image.CreateImg | bl2.c:292-341 | The build stops at the first failing stage and returns its negative status; it returns 0 only when every stage finished. Each stopping point states what the file holds. A finished build leaves exactly Image(salt, input, junk, key counts, sha256). |
| ImageProps.ImageLayout | bl2.c:313-338 | Every byte of a finished image matches the layout: salt, header, digest, key area (zero except for the placeholders), payload, then zeros to 0xC000. |
| ImageProps.ImageHeader | bl2.c:119-164 | A finished image starts with the salt, then "@AML", and its header decodes to the values gi_bl2_init chose. |
| ImageProps.ImageKeys | bl2.c:166-186 | When every placeholder write went through, the slots read back as 0x298, 0x240 and 0x298. |
| ImageProps.ImagePayload | bl2.c:188-218 | The payload area of a finished image holds the input, cut at 0xB000. |
| Bl2Image.Extract | bl2.c:343-351 | gi_bl2_extract always returns -1 and touches no file. |

## Left out

- Opening the files: `open` with its flags and mode, and the `-errno` it returns. The model starts from two files already open.
- The salt: `srand(time(NULL))` and `rand()` are left out. The 16 salt bytes are a parameter.
- The uninitialised block buffer of `gi_bl2_dump_binary` is a 1024-byte parameter, `junk`.
- SHA-256 itself is a function passed in. The model proves what it is applied to, not what it computes.
- `EVP_MD_CTX_free` and the OpenSSL allocation shims in `ssl.h` free memory and have nothing to verify.
- The `ERR`, `PERR` and `DBG` logging is left out; `gxlimg.h` is not part of this model.
- Host endianness: `htole*` and the `"@AML"` word are modelled as their little-endian bytes on disk.
- `lseek` return values, which the source ignores, and an `lseek` failure that `gi_bl2_init` would store as the payload size. Seeking on a regular file cannot fail in the model.
- Bl2Image.Sign: it requires that the file either ends before 0x50 or reaches the end of the hash count. A file ending in between makes the source's hash loop read 0 bytes forever; the model does not describe that non-terminating case.
- Bl2Image.Sign: on failure the contract states only that nothing outside the digest slot changed. Failures before the digest write in fact change nothing.
- Bl2Image.CreateImg: requires the input and the output to be different files. The same path for both (aliasing) is not modelled. Bl2Image.DumpBinary requires the same.
- Posix.File.Read: a successful read with bytes left and room in the buffer returns at least one byte. Likewise, Posix.File.Write of a non-empty buffer writes at least one. A call that returns 0 forever would make the source's loops spin; this is what lets the loops terminate in the model.
- Evp.ErrorStatus: it assumes OpenSSL's error queue holds a code. With an empty queue, `SSLERR` yields 0, which gi_bl2_sign would report as success.
- The `(int)` casts of `ssize_t` results are left implicit: every value they see is -1 or at most 0xC000. The `size_t` subtraction `hash_end - hash_start` is modelled modulo 2^64.
