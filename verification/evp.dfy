/**
 * The OpenSSL message-digest interface gi_bl2_sign uses.  SHA-256 itself is
 * not modelled: it is the function a caller passes in.  A context remembers
 * every byte fed to it since DigestInit, and DigestFinal hashes exactly
 * those, so feeding bytes block by block is hashing their concatenation.
 * Every call may fail; OpenSSL functions return 1 on success and 0 on failure.
 */
module Evp {
  import opened Bytes

  const SHA256_LEN: nat := 32

  type Digest = s: seq<Byte> | |s| == SHA256_LEN witness Zeros(SHA256_LEN)

  /** EVP_MD_CTX */
  class MdCtx {
    var fed: seq<Byte>

    constructor ()
      ensures fed == []
    {
      fed := [];
    }

    /** EVP_DigestInit_ex(ctx, EVP_sha256(), NULL) */
    method DigestInit() returns (ok: int)
      modifies this
      ensures ok == 0 || ok == 1
      ensures ok == 1 ==> fed == []
      ensures ok == 0 ==> fed == old(fed)
    {
      var fails: bool :| true;
      if fails {
        ok := 0;
      } else {
        fed := [];
        ok := 1;
      }
    }

    /** EVP_DigestUpdate(ctx, b, |b|) */
    method DigestUpdate(b: seq<Byte>) returns (ok: int)
      modifies this
      ensures ok == 0 || ok == 1
      ensures ok == 1 ==> fed == old(fed) + b
      ensures ok == 0 ==> fed == old(fed)
    {
      var fails: bool :| true;
      if fails {
        ok := 0;
      } else {
        fed := fed + b;
        ok := 1;
      }
    }

    /** EVP_DigestFinal_ex(ctx, md, NULL) */
    method DigestFinal(sha256: seq<Byte> -> Digest) returns (ok: int, md: Digest)
      ensures ok == 0 || ok == 1
      ensures ok == 1 ==> md == sha256(fed)
    {
      var fails: bool :| true;
      ok := if fails then 0 else 1;
      md := sha256(fed);
    }
  }

  /** EVP_MD_CTX_new(): null when the allocation fails. */
  method NewCtx() returns (ctx: MdCtx?)
    ensures ctx != null ==> fresh(ctx) && ctx.fed == []
  {
    var fails: bool :| true;
    if fails {
      ctx := null;
    } else {
      ctx := new MdCtx();
    }
  }

  /** The SSLERR status: minus the code ERR_get_error() takes off the error queue. */
  method ErrorStatus() returns (ret: int)
    ensures ret < 0
  {
    var code: nat :| code > 0;
    ret := 0 - code as int;
  }
}
