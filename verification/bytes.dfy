/**
 * Bytes, little-endian integers and the contents of a file after a write.
 */
module Bytes {

  type Byte = b: int | 0 <= b < 256

  function Min(a: int, b: int): int { if a <= b then a else b }
  function Max(a: int, b: int): int { if a >= b then a else b }

  /** 256 to the power w: one more than the largest w-byte unsigned value. */
  function Pow256(w: nat): (p: nat)
    ensures p > 0
  {
    if w == 0 then 1 else 256 * Pow256(w - 1)
  }

  function Zeros(n: nat): (z: seq<Byte>)
    ensures |z| == n
    ensures forall i :: 0 <= i < n ==> z[i] == 0
  {
    seq(n, _ => 0)
  }

  /** The w bytes of v, least significant first. */
  function LE(v: nat, w: nat): (s: seq<Byte>)
    requires v < Pow256(w)
    ensures |s| == w
  {
    if w == 0 then [] else [v % 256] + LE(v / 256, w - 1)
  }

  /** The unsigned value of little-endian bytes. */
  function FromLE(s: seq<Byte>): (v: nat)
    ensures v < Pow256(|s|)
  {
    if s == [] then 0 else s[0] + 256 * FromLE(s[1..])
  }

  /** Encoding then decoding gives the value back. */
  lemma {:induction false} FromLEOfLE(v: nat, w: nat)
    requires v < Pow256(w)
    ensures FromLE(LE(v, w)) == v
  {
    if w > 0 {
      FromLEOfLE(v / 256, w - 1);
      assert LE(v, w)[1..] == LE(v / 256, w - 1);
    }
  }

  /** Decoding then encoding gives the bytes back. */
  lemma {:induction false} LEOfFromLE(s: seq<Byte>)
    ensures LE(FromLE(s), |s|) == s
  {
    if s != [] {
      var rest := FromLE(s[1..]);
      assert FromLE(s) % 256 == s[0] && FromLE(s) / 256 == rest;
      LEOfFromLE(s[1..]);
      assert LE(FromLE(s), |s|) == [s[0]] + LE(rest, |s| - 1);
    }
  }

  /** Adjacent slices join. */
  lemma SliceJoin(d: seq<Byte>, x: nat, y: nat, z: nat)
    requires x <= y <= z <= |d|
    ensures d[x..y] + d[y..z] == d[x..z]
  {
  }

  lemma AppendAssoc(a: seq<Byte>, b: seq<Byte>, c: seq<Byte>)
    ensures a + (b + c) == (a + b) + c
  {
  }

  /** Byte i of a file holding d: a file reads as zeros past its end. */
  function At(d: seq<Byte>, i: nat): Byte
  {
    if i < |d| then d[i] else 0
  }

  /** The contents of a file holding d once its length is set to n (ftruncate). */
  function Resize(d: seq<Byte>, n: nat): (r: seq<Byte>)
    ensures |r| == n
    ensures forall i :: 0 <= i < n ==> r[i] == At(d, i)
  {
    if n <= |d| then d[..n] else d + Zeros(n - |d|)
  }

  /**
   * The contents of a file holding d after c is written at offset off: the
   * bytes of c replace those at [off, off + |c|), a write past the end grows
   * the file and the gap reads as zeros, every other byte stays.  Writing
   * nothing changes nothing.
   */
  function Splice(d: seq<Byte>, off: nat, c: seq<Byte>): (r: seq<Byte>)
    ensures |r| == if c == [] then |d| else Max(|d|, off + |c|)
  {
    if c == [] then d
    else seq(Max(|d|, off + |c|), i requires 0 <= i => if off <= i < off + |c| then c[i - off] else At(d, i))
  }

  /** Byte by byte: the written range holds c, every other byte is the old one (or zero past the old end). */
  lemma SpliceContents(d: seq<Byte>, off: nat, c: seq<Byte>)
    ensures forall i :: off <= i < off + |c| ==> Splice(d, off, c)[i] == c[i - off]
    ensures forall i :: 0 <= i < |Splice(d, off, c)| && (i < off || off + |c| <= i) ==>
      Splice(d, off, c)[i] == At(d, i)
  {
  }

  /** Byte i after a write: from c inside the written range, the old byte (or zero) outside it. */
  lemma SpliceAt(d: seq<Byte>, off: nat, c: seq<Byte>, i: nat)
    requires i < |Splice(d, off, c)|
    ensures Splice(d, off, c)[i] == if off <= i < off + |c| then c[i - off] else At(d, i)
  {
    SpliceContents(d, off, c);
  }

  /** Two writes back to back are one write of both. */
  lemma SpliceAppend(d: seq<Byte>, off: nat, a: seq<Byte>, b: seq<Byte>, q: nat)
    requires q == off + |a|
    ensures Splice(Splice(d, off, a), q, b) == Splice(d, off, a + b)
  {
    var l := Splice(Splice(d, off, a), q, b);
    var r := Splice(d, off, a + b);
    SpliceContents(d, off, a);
    SpliceContents(Splice(d, off, a), q, b);
    SpliceContents(d, off, a + b);
    assert |l| == |r|;
    forall i | 0 <= i < |l| ensures l[i] == r[i] {
      if off <= i < off + |a| {
        assert l[i] == a[i - off] == (a + b)[i - off];
      } else if off + |a| <= i < off + |a| + |b| {
        assert l[i] == b[i - off - |a|] == (a + b)[i - off];
      }
    }
  }

  /**
   * b is a's contents after writes that all lay inside [lo, hi): nothing
   * outside the range changed, and the file grew at most up to hi.
   */
  predicate ChangedOnlyIn(a: seq<Byte>, b: seq<Byte>, lo: nat, hi: nat)
  {
    |a| <= |b| <= Max(|a|, hi) &&
    forall i :: 0 <= i < |b| && (i < lo || hi <= i) ==> b[i] == At(a, i)
  }

  lemma SpliceChangesOnlyIn(d: seq<Byte>, off: nat, c: seq<Byte>, lo: nat, hi: nat)
    requires lo <= off && off + |c| <= hi
    ensures ChangedOnlyIn(d, Splice(d, off, c), lo, hi)
  {
    SpliceContents(d, off, c);
  }

  lemma ChangedOnlyInTrans(a: seq<Byte>, b: seq<Byte>, c: seq<Byte>, lo: nat, hi: nat)
    requires ChangedOnlyIn(a, b, lo, hi) && ChangedOnlyIn(b, c, lo, hi)
    ensures ChangedOnlyIn(a, c, lo, hi)
  {
    forall i | 0 <= i < |c| && (i < lo || hi <= i) ensures c[i] == At(a, i) {
      assert c[i] == At(b, i);
    }
  }
}
