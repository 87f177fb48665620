/** Fixed-width integers, byte strings and the 32-bit word encoding shared by
    the region container and the chunk pipeline. */
module Bytes {

  /** An unsigned byte (`u8`). */
  newtype u8 = x: int | 0 <= x < 256

  /** An unsigned 32-bit value (`u32`). */
  type u32 = x: int | 0 <= x < 0x1_0000_0000

  const U32_LIMIT: int := 0x1_0000_0000

  datatype Option<+T> = None | Some(value: T)

  /** The contents of a freshly allocated n-byte buffer. */
  function Zeros(n: nat): (r: seq<u8>)
    ensures |r| == n
    ensures forall i :: 0 <= i < n ==> r[i] == 0
  {
    seq(n, _ => 0)
  }

  /** The four bytes a cursor writes for `w`, most significant first unless
      the cursor is little-endian. */
  function WordBytes(w: u32, little: bool): (r: seq<u8>)
    ensures |r| == 4
  {
    var b := [(w / 256 / 256 / 256) as u8, (w / 256 / 256 % 256) as u8, (w / 256 % 256) as u8, (w % 256) as u8];
    if little then [b[3], b[2], b[1], b[0]] else b
  }

  /** The 32-bit value a cursor reads from four bytes. */
  function ReadWord(b: seq<u8>, little: bool): u32
    requires |b| == 4
  {
    var c := if little then [b[3], b[2], b[1], b[0]] else b;
    ((c[0] as int * 256 + c[1] as int) * 256 + c[2] as int) * 256 + c[3] as int
  }

  /** Reading back the bytes written for a word gives the word, in either byte order. */
  lemma WordRoundTrip(w: u32, little: bool)
    ensures ReadWord(WordBytes(w, little), little) == w
  {
    var q1 := w / 256;
    var q2 := q1 / 256;
    var q3 := q2 / 256;
    assert w == q1 * 256 + w % 256;
    assert q1 == q2 * 256 + q1 % 256;
    assert q2 == q3 * 256 + q2 % 256;
  }
}
