/** Byte buffers as the kernel sees them: memcpy into a flat buffer, and the
    little-endian 32-bit words that index blocks and page tables are made of. */
module Bytes {

  newtype byte = x: int | 0 <= x < 256

  const WORD_LIMIT: nat := 0x1_0000_0000

  /** memcpy of `t` into `s` at offset `at`. */
  function Splice(s: seq<byte>, at: nat, t: seq<byte>): (r: seq<byte>)
    requires at + |t| <= |s|
    ensures |r| == |s|
    ensures forall i :: 0 <= i < |s| ==> r[i] == if at <= i < at + |t| then t[i - at] else s[i]
  {
    s[..at] + t + s[at + |t|..]
  }

  /** `*((uint32_t*)(s + p))`; zero when the word would fall outside the buffer. */
  function WordAt(s: seq<byte>, p: nat): (w: nat)
    ensures w < WORD_LIMIT
  {
    if p + 4 <= |s|
    then s[p] as nat + 0x100 * s[p + 1] as nat + 0x1_0000 * s[p + 2] as nat + 0x100_0000 * s[p + 3] as nat
    else 0
  }

  /** The four bytes of a uint32_t, least significant first. */
  function WordBytes(w: nat): (b: seq<byte>)
    requires w < WORD_LIMIT
    ensures |b| == 4
  {
    [(w % 0x100) as byte, (w / 0x100 % 0x100) as byte, (w / 0x1_0000 % 0x100) as byte, (w / 0x100_0000) as byte]
  }

  /** Storing a word and loading it back gives the word. */
  lemma WordRoundTrip(s: seq<byte>, p: nat, w: nat)
    requires p + 4 <= |s| && w < WORD_LIMIT
    ensures WordAt(Splice(s, p, WordBytes(w)), p) == w
  {
    var b := WordBytes(w);
    var r := Splice(s, p, b);
    assert r[p] == b[0] && r[p + 1] == b[1] && r[p + 2] == b[2] && r[p + 3] == b[3];
  }

  /** A word depends on its own four bytes only. */
  lemma WordLocal(s: seq<byte>, s': seq<byte>, p: nat)
    requires |s| == |s'|
    requires forall i :: p <= i < p + 4 && i < |s| ==> s[i] == s'[i]
    ensures WordAt(s, p) == WordAt(s', p)
  {
  }

  lemma SpliceCommutes(d: seq<byte>, p: nat, t: seq<byte>, o: nat, b: seq<byte>)
    requires p + |t| <= |d| && o + |b| <= |d|
    requires p + |t| <= o || o + |b| <= p
    ensures Splice(Splice(d, p, t), o, b) == Splice(Splice(d, o, b), p, t)
  {
  }

  /** Changing a buffer and then copying it out is copying it out and then changing the copy. */
  lemma SpliceNests(d: seq<byte>, o: nat, b: seq<byte>, p: nat, t: seq<byte>)
    requires o + |b| <= |d| && p + |t| <= |b|
    ensures Splice(d, o, Splice(b, p, t)) == Splice(Splice(d, o, b), o + p, t)
  {
  }

  lemma SpliceIdentity(d: seq<byte>, o: nat, n: nat)
    requires o + n <= |d|
    ensures Splice(d, o, d[o..o + n]) == d
  {
  }

  lemma SpliceConcat(s: seq<byte>, at: nat, x: seq<byte>, y: seq<byte>)
    requires at + |x| + |y| <= |s|
    ensures Splice(Splice(s, at, x), at + |x|, y) == Splice(s, at, x + y)
  {
  }
}
