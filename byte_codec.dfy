/**
 * Bytes as they come out of a StarDict file: unsigned 8-bit values, big-endian
 * integers (the `struct` formats "!I" and "!Q") and the NUL terminator search
 * that `bytes.find(b'\0', start)` performs.
 */
module ByteCodec {
  import opened Wrappers

  newtype byte = x: int | 0 <= x < 256

  type Bytes = seq<byte>

  const NUL: byte := 0

  /** 256 to the power n: the number of values an n-byte field can hold. */
  function Pow256(n: nat): (r: nat)
    ensures r > 0
  {
    if n == 0 then 1 else 256 * Pow256(n - 1)
  }

  /** The unsigned big-endian value of `b`. */
  function BigEndian(b: Bytes): nat
  {
    if b == [] then 0 else BigEndian(b[..|b| - 1]) * 256 + b[|b| - 1] as nat
  }

  lemma {:induction false} BigEndianBound(b: Bytes)
    ensures BigEndian(b) < Pow256(|b|)
  {
    if b != [] {
      BigEndianBound(b[..|b| - 1]);
      var h, l := BigEndian(b[..|b| - 1]), b[|b| - 1] as nat;
      assert h + 1 <= Pow256(|b| - 1);
      assert (h + 1) * 256 <= Pow256(|b| - 1) * 256;
    }
  }

  /** The `width`-byte big-endian encoding of `n`. */
  function EncodeBigEndian(n: nat, width: nat): (r: Bytes)
    requires n < Pow256(width)
    ensures |r| == width
  {
    if width == 0 then []
    else
      assert n / 256 < Pow256(width - 1) by {
        assert n < 256 * Pow256(width - 1);
      }
      EncodeBigEndian(n / 256, width - 1) + [(n % 256) as byte]
  }

  /** Decoding an encoded value gives the value back. */
  lemma {:induction false} DecodeEncode(n: nat, width: nat)
    requires n < Pow256(width)
    ensures BigEndian(EncodeBigEndian(n, width)) == n
  {
    if width > 0 {
      var r := EncodeBigEndian(n, width);
      assert r[..width - 1] == EncodeBigEndian(n / 256, width - 1);
      DecodeEncode(n / 256, width - 1);
    }
  }

  /** Encoding a decoded field gives the field back: the codec is a bijection on width-byte strings. */
  lemma {:induction false} EncodeDecode(b: Bytes)
    ensures BigEndian(b) < Pow256(|b|)
    ensures EncodeBigEndian(BigEndian(b), |b|) == b
  {
    BigEndianBound(b);
    if b != [] {
      var p := b[..|b| - 1];
      EncodeDecode(p);
      var n := BigEndian(b);
      assert n / 256 == BigEndian(p) && n % 256 == b[|b| - 1] as nat;
      assert b == p + [b[|b| - 1]];
    }
  }

  /**
   * The position of the first NUL at or after `from`; None where the source's
   * `find` would return -1.
   */
  function FindNul(s: Bytes, from: nat): (r: Option<nat>)
    ensures r.Some? ==> from <= r.value < |s| && s[r.value] == NUL
    ensures r.Some? ==> forall i :: from <= i < r.value ==> s[i] != NUL
    ensures r.None? ==> forall i :: from <= i < |s| ==> s[i] != NUL
    decreases |s| - from
  {
    if from >= |s| then None
    else if s[from] == NUL then Some(from)
    else FindNul(s, from + 1)
  }

  /** A byte read as a type-identifier character (Latin-1 reading of one byte). */
  function CharOf(b: byte): char
  {
    (b as int) as char
  }
}
