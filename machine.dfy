/** Fixed-width machine integers and the little-endian byte layout used by
    both sides of the bridge (the host is x86-64, the guest RISC-V 64; both
    are little-endian). */
module Machine {

  const WORD_MOD: int := 0x1_0000_0000_0000_0000
  const HALF_WORD_MOD: int := 0x1_0000_0000

  type u8 = x: int | 0 <= x < 0x100
  type u32 = x: int | 0 <= x < 0x1_0000_0000
  type u64 = x: int | 0 <= x < 0x1_0000_0000_0000_0000
  type i32 = x: int | -0x8000_0000 <= x < 0x8000_0000
  type i64 = x: int | -0x8000_0000_0000_0000 <= x < 0x8000_0000_0000_0000

  datatype Option<+T> = None | Some(value: T)

  function Pow256(n: nat): nat {
    if n == 0 then 1 else 256 * Pow256(n - 1)
  }

  lemma Pow256Word()
    ensures Pow256(8) == WORD_MOD && Pow256(4) == HALF_WORD_MOD
  {
    assert Pow256(4) == 0x1_0000_0000;
  }

  /** The n low-order bytes of w, least significant first: what memcpy copies
      out of an n-byte integer on a little-endian machine. */
  function Encode(w: nat, n: nat): (r: seq<u8>)
    ensures |r| == n
  {
    if n == 0 then [] else [w % 256] + Encode(w / 256, n - 1)
  }

  /** The unsigned integer whose little-endian bytes are bs. */
  function Decode(bs: seq<u8>): (r: nat)
    ensures r < Pow256(|bs|)
  {
    if |bs| == 0 then 0 else bs[0] + 256 * Decode(bs[1..])
  }

  /** Storing an integer that fits in n bytes and loading it back gives it back. */
  lemma {:induction false} DecodeEncode(w: nat, n: nat)
    requires w < Pow256(n)
    ensures Decode(Encode(w, n)) == w
  {
    if n > 0 {
      assert w / 256 < Pow256(n - 1);
      DecodeEncode(w / 256, n - 1);
      assert Encode(w, n)[1..] == Encode(w / 256, n - 1);
    }
  }

  /** s with the bytes b written from offset off on (memcpy into a buffer). */
  function Splice(s: seq<u8>, off: nat, b: seq<u8>): (r: seq<u8>)
    requires off + |b| <= |s|
    ensures |r| == |s|
    ensures r[off..off + |b|] == b
  {
    s[..off] + b + s[off + |b|..]
  }

  /** Splice leaves every byte outside the written range as it was. */
  lemma SpliceFrame(s: seq<u8>, off: nat, b: seq<u8>)
    requires off + |b| <= |s|
    ensures forall i :: 0 <= i < |s| && !(off <= i < off + |b|) ==> Splice(s, off, b)[i] == s[i]
  {
  }

  /** A C `int` passed where a 64-bit word is read: sign extension. */
  function WordOfInt32(x: i32): (w: u64)
    ensures Int32OfWord(w) == x
  {
    if x >= 0 then x else x + WORD_MOD
  }

  /** C's `(int)` cast of a 64-bit word: the low 32 bits, read as two's complement. */
  function Int32OfWord(w: u64): (x: i32)
    ensures (w - x) % HALF_WORD_MOD == 0
  {
    var lo := w % HALF_WORD_MOD;
    if lo < 0x8000_0000 then lo else lo - HALF_WORD_MOD
  }

  /** A `ptrdiff_t` passed where a 64-bit word is read: the same 64 bits. */
  function WordOfInt64(x: i64): (w: u64)
    ensures Int64OfWord(w) == x
  {
    if x >= 0 then x else x + WORD_MOD
  }

  /** C's `(ptrdiff_t)` cast of a 64-bit word: the word read as two's complement. */
  function Int64OfWord(w: u64): (x: i64)
    ensures (w - x) % WORD_MOD == 0
  {
    if w < 0x8000_0000_0000_0000 then w else w - WORD_MOD
  }

  /** C's `(uint32_t)` cast of a 64-bit word: its low 32 bits. */
  function Low32(w: u64): (x: u32)
    ensures (w - x) % HALF_WORD_MOD == 0
  {
    w % HALF_WORD_MOD
  }

  /** `*(int32_t*)&f` for a float f with bit pattern b: the same 32 bits
      read as two's complement. */
  function Int32OfBits(b: u32): (x: i32)
    ensures Low32(WordOfInt32(x)) == b
  {
    if b < 0x8000_0000 then b else b - HALF_WORD_MOD
  }
}
