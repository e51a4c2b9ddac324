/** Bytes inside 64-bit words: little-endian fields of a file image, and memcpy into a frame. */
module Bytes {
  import opened Pmm
  import opened PageTables

  type Byte = b: int | 0 <= b < 256

  function Pow256(n: nat): nat {
    if n == 0 then 1 else 256 * Pow256(n - 1)
  }

  /** The little-endian value of a sequence of bytes. */
  function Little(bytes: seq<Byte>): (v: nat)
    ensures v < Pow256(|bytes|)
  {
    if bytes == [] then 0 else bytes[0] + 256 * Little(bytes[1..])
  }

  /** Byte j of a little-endian value. */
  function Digit(v: nat, j: nat): Byte {
    if j == 0 then v % 256 else Digit(v / 256, j - 1)
  }

  lemma {:induction false} DigitOfLittle(bytes: seq<Byte>, j: nat)
    requires j < |bytes|
    ensures Digit(Little(bytes), j) == bytes[j]
  {
    SplitLow(bytes[0], Little(bytes[1..]));
    if j > 0 { DigitOfLittle(bytes[1..], j - 1); }
  }

  lemma SplitLow(low: Byte, high: nat)
    ensures (low + 256 * high) % 256 == low && (low + 256 * high) / 256 == high
  {
  }

  lemma EightBytesFit()
    ensures Pow256(8) == U64_LIMIT
  {
    assert Pow256(2) == 0x1_0000;
    assert Pow256(4) == 0x1_0000_0000;
    assert Pow256(6) == 0x1_0000_0000_0000;
  }

  lemma ZeroDigits(j: nat)
    ensures Digit(0, j) == 0
  {
  }

  function FieldAt(data: seq<Byte>, offset: nat, width: nat): nat
    requires offset + width <= |data|
  {
    Little(data[offset..offset + width])
  }

  /** Byte k of a frame. */
  function ByteAt(f: Frame, k: nat): Byte
    requires k < FRAME_SIZE
  {
    Digit(f[k / 8], k % 8)
  }

  /** Byte k of a frame after the bytes of `src` were copied to its start. */
  function OverlaidByte(f: Frame, src: seq<Byte>, k: nat): Byte
    requires k < FRAME_SIZE
  {
    if k < |src| then src[k] else ByteAt(f, k)
  }

  function WordBytes(f: Frame, src: seq<Byte>, i: Index): (bytes: seq<Byte>)
    ensures |bytes| == 8 && forall j :: 0 <= j < 8 ==> bytes[j] == OverlaidByte(f, src, 8 * i + j)
  {
    seq<Byte>(8, j requires 0 <= j < 8 => OverlaidByte(f, src, 8 * i + j))
  }

  function OverlaidWord(f: Frame, src: seq<Byte>, i: Index): (w: Word)
  {
    EightBytesFit();
    Little(WordBytes(f, src, i))
  }

  /** memcpy of `src` to the start of a frame. */
  function Overlay(f: Frame, src: seq<Byte>): Frame
    requires |src| <= FRAME_SIZE
  {
    seq<Word>(512, i requires 0 <= i < 512 => OverlaidWord(f, src, i))
  }

  lemma OverlayByte(f: Frame, src: seq<Byte>, k: nat)
    requires |src| <= FRAME_SIZE && k < FRAME_SIZE
    ensures ByteAt(Overlay(f, src), k) == if k < |src| then src[k] else ByteAt(f, k)
  {
    var i, j := k / 8, k % 8;
    assert 8 * i + j == k;
    assert Overlay(f, src)[i] == OverlaidWord(f, src, i);
    DigitOfLittle(WordBytes(f, src, i), j);
  }

  lemma ZeroByte(k: nat)
    requires k < FRAME_SIZE
    ensures ByteAt(ZeroFrame(), k) == 0
  {
    ZeroDigits(k % 8);
  }
}
