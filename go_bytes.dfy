/** Byte-level primitives shared by both programs: Go's `byte`, Go strings as
    byte sequences, and the two `encoding/binary` little-endian helpers they
    use (`PutUint64` and `Uint64`). */
module GoBytes {

  /** Go's `byte` (`uint8`). */
  newtype byte = x: int | 0 <= x < 256

  /** A Go string or `[]byte`: `len` counts bytes and `string(b)` copies them
      unchanged, so both are modelled by the same byte sequence. */
  type GoString = seq<byte>

  /** 256 to the power `n`: the number of values an `n`-byte field can hold. */
  function Pow256(n: nat): nat
  {
    if n == 0 then 1 else 256 * Pow256(n - 1)
  }

  /** The number of values a `uint64` can hold. */
  const Uint64Bound: nat := 0x1_0000_0000_0000_0000

  /** The first `width` little-endian bytes of `n`. */
  function ToLittleEndian(n: nat, width: nat): (r: seq<byte>)
    ensures |r| == width
  {
    if width == 0 then [] else [(n % 256) as byte] + ToLittleEndian(n / 256, width - 1)
  }

  /** The number a little-endian byte sequence denotes. */
  function FromLittleEndian(b: seq<byte>): (n: nat)
    ensures n < Pow256(|b|)
  {
    if b == [] then 0 else b[0] as nat + 256 * FromLittleEndian(b[1..])
  }

  lemma {:induction false} FromToLittleEndian(n: nat, width: nat)
    requires n < Pow256(width)
    ensures FromLittleEndian(ToLittleEndian(n, width)) == n
  {
    if width > 0 {
      var rest := ToLittleEndian(n / 256, width - 1);
      FromToLittleEndian(n / 256, width - 1);
      assert ToLittleEndian(n, width)[1..] == rest;
    }
  }

  lemma {:induction false} ToFromLittleEndian(b: seq<byte>)
    ensures ToLittleEndian(FromLittleEndian(b), |b|) == b
  {
    if b != [] {
      var n := FromLittleEndian(b);
      var tail := FromLittleEndian(b[1..]);
      assert n % 256 == b[0] as nat && n / 256 == tail;
      ToFromLittleEndian(b[1..]);
      assert b == [b[0]] + b[1..];
    }
  }

  lemma Pow256Of8()
    ensures Pow256(8) == Uint64Bound
  {
  }

  /** `binary.LittleEndian.PutUint64`: the eight bytes of a `uint64`,
      least significant first. */
  function PutUint64(n: nat): (r: seq<byte>)
    requires n < Uint64Bound
    ensures |r| == 8
    ensures Uint64(r) == n
  {
    Pow256Of8();
    FromToLittleEndian(n, 8);
    ToLittleEndian(n, 8)
  }

  /** `binary.LittleEndian.Uint64`: the `uint64` eight bytes denote. */
  function Uint64(b: seq<byte>): (n: nat)
    requires |b| == 8
    ensures n < Uint64Bound
  {
    Pow256Of8();
    FromLittleEndian(b)
  }

  /** Two byte fields that read as the same `uint64` are the same bytes: the
      encoding of a length is unique. */
  lemma PutUint64OfUint64(b: seq<byte>)
    requires |b| == 8
    ensures PutUint64(Uint64(b)) == b
  {
    ToFromLittleEndian(b);
  }
}
